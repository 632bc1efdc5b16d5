/** The Gregorian calendar from 1970: days since the epoch and dates. */
module Calendar {
  import opened Words

  const EPOCH_YEAR: nat := 1970

  datatype Date = Date(year: nat, month: nat, day: nat)

  predicate IsLeapYear(year: nat) {
    (year % 4 == 0 && year % 100 != 0) || year % 400 == 0
  }

  function DaysInMonth(year: nat, month: nat): nat {
    if month == 2 then 28 + (if IsLeapYear(year) then 1 else 0)
    else 30 + (month + month / 8) % 2
  }

  predicate IsDate(d: Date) {
    d.year >= EPOCH_YEAR && 1 <= d.month <= 12 && 1 <= d.day <= DaysInMonth(d.year, d.month)
  }

  // ---- The arithmetic ----

  /** Months counted from March. */
  function MarchMonth(month: nat): nat
    requires 1 <= month <= 12
  {
    if month > 2 then month - 3 else month + 9
  }

  function MonthStart(march: nat): nat {
    (153 * march + 2) / 5
  }

  function YearStart(yearOfEra: nat): int {
    yearOfEra * 365 + (yearOfEra / 4 - yearOfEra / 100)
  }

  function ToDays(d: Date): int
    requires IsDate(d)
  {
    var shifted := d.year - (if d.month <= 2 then 1 else 0);
    var era := shifted / 400;
    var yearOfEra := shifted - era * 400;
    var dayOfYear := MonthStart(MarchMonth(d.month)) + (d.day - 1);
    era * 146097 + (YearStart(yearOfEra) + dayOfYear) - 719468
  }

  function YearOf(dayOfEra: nat): int {
    var skips := dayOfEra / 1460 - dayOfEra / 36524 + dayOfEra / 146096;
    (dayOfEra - skips) / 365
  }

  function MonthOf(dayOfYear: nat): nat {
    (5 * dayOfYear + 2) / 153
  }

  // ---- Years of an era ----

  /** The length of a year that begins in March. */
  ghost function YearLength(yearOfEra: nat): (days: nat)
    ensures 365 <= days <= 366
  {
    if (yearOfEra + 1) % 4 == 0 && ((yearOfEra + 1) % 100 != 0 || yearOfEra == 399) then 366 else 365
  }

  lemma {:induction false} YearParts(y: nat) returns (c: nat, q: nat, r: nat)
    requires y < 400
    ensures y == 100 * c + 4 * q + r && c < 4 && q < 25 && r < 4
    ensures YearStart(y) == 36524 * c + 1461 * q + 365 * r
    ensures YearLength(y) == if r == 3 && (q != 24 || c == 3) then 366 else 365
  {
    c := y / 100;
    q := (y % 100) / 4;
    r := y % 4;
  }

  /** The year of a day is recovered. */
  lemma {:induction false} YearRecovered(y: nat, dayOfYear: nat)
    requires y < 400 && dayOfYear < YearLength(y)
    ensures 0 <= YearStart(y) + dayOfYear < 146097
    ensures YearOf(YearStart(y) + dayOfYear) == y
  {
    var c, q, r := YearParts(y);
    YearFromParts(c, q, r, dayOfYear);
  }

  lemma {:induction false} YearFromParts(c: nat, q: nat, r: nat, dayOfYear: nat)
    requires c < 4 && q < 25 && r < 4
    requires dayOfYear < if r == 3 && (q != 24 || c == 3) then 366 else 365
    ensures var day := 36524 * c + 1461 * q + 365 * r + dayOfYear;
      day < 146097 && YearOf(day) == 100 * c + 4 * q + r
  {
    var day := 36524 * c + 1461 * q + 365 * r + dayOfYear;
    var over := if 24 * c + q + 365 * r + dayOfYear >= 1460 then 1 else 0;
    assert day / 1460 == 25 * c + q + over;
    assert day / 36524 - day / 146096 == c;
    assert day - (25 * c + q + over - c) == 365 * (100 * c + 4 * q + r) + (dayOfYear - over);
  }

  /** Every day of an era is a day of the year computed for it. */
  lemma {:induction false} YearContains(day: nat)
    requires day < 146097
    ensures 0 <= YearOf(day) < 400
    ensures 0 <= day - YearStart(YearOf(day)) < YearLength(YearOf(day))
  {
    var c := if day / 36524 > 3 then 3 else day / 36524;
    var d1 := day - 36524 * c;
    var q := if d1 / 1461 > 24 then 24 else d1 / 1461;
    var d2 := d1 - 1461 * q;
    var r := if d2 / 365 > 3 then 3 else d2 / 365;
    YearFromParts(c, q, r, d2 - 365 * r);
    YearStarts(c, q, r);
  }

  lemma {:induction false} YearStarts(c: nat, q: nat, r: nat)
    requires c < 4 && q < 25 && r < 4
    ensures var y := 100 * c + 4 * q + r;
      && YearStart(y) == 36524 * c + 1461 * q + 365 * r
      && YearLength(y) == if r == 3 && (q != 24 || c == 3) then 366 else 365
  {
    var y := 100 * c + 4 * q + r;
    assert y / 100 == c && y / 4 == 25 * c + q;
  }

  // ---- Months of a year ----

  lemma {:induction false} MonthRecovered(march: nat, day: nat)
    requires march < 12 && day < MonthStart(march + 1) - MonthStart(march)
    ensures MonthOf(MonthStart(march) + day) == march
  {
    assert march == 0 || march == 1 || march == 2 || march == 3 || march == 4 || march == 5 || march == 6 ||
           march == 7 || march == 8 || march == 9 || march == 10 || march == 11;
  }

  lemma {:induction false} MonthContains(dayOfYear: nat)
    requires dayOfYear < 366
    ensures MonthOf(dayOfYear) < 12
    ensures MonthStart(MonthOf(dayOfYear)) <= dayOfYear < MonthStart(MonthOf(dayOfYear) + 1)
  {
  }

  /** The days of a month, by months counted from March: the last ends with the year. */
  lemma {:induction false} MonthLength(year: nat, month: nat)
    requires 1 <= month <= 12
    ensures month != 2 ==> DaysInMonth(year, month) == MonthStart(MarchMonth(month) + 1) - MonthStart(MarchMonth(month))
    ensures month == 2 && year > 0 ==> MonthStart(11) + DaysInMonth(year, 2) == YearLength((year - 1) % 400)
    ensures MonthStart(11) + 31 >= 366
  {
    if month == 2 && year > 0 {
      LeapLength(year);
    } else if month != 2 {
      assert month == 1 || month == 3 || month == 4 || month == 5 || month == 6 || month == 7 || month == 8 ||
             month == 9 || month == 10 || month == 11 || month == 12;
    }
  }

  lemma {:induction false} LeapLength(year: nat)
    requires year > 0
    ensures YearLength((year - 1) % 400) == if IsLeapYear(year) then 366 else 365
  {
    var y, e := (year - 1) % 400, (year - 1) / 400;
    assert year == y + 1 + 400 * e;
    ModPlus(y + 1, 4, 100 * e);
    ModPlus(y + 1, 100, 4 * e);
    ModPlus(y + 1, 400, e);
  }

  lemma {:induction false} ModPlus(n: nat, d: nat, k: nat)
    requires d > 0
    ensures (n + d * k) % d == n % d
  {
    var q, r := n / d, n % d;
    assert n == q * d + r;
    assert (q + k) * d == q * d + d * k;
    DivideUnique(n + d * k, d, q + k, r);
  }

  // ---- Days and dates ----

  /** The date of a day of a year that begins in March. */
  function DateAt(year: nat, dayOfYear: nat): Date
    requires dayOfYear < 366
  {
    MonthContains(dayOfYear);
    var march := MonthOf(dayOfYear);
    var day := dayOfYear - MonthStart(march) + 1;
    var month := if march < 10 then march + 3 else march - 9;
    Date(year + (if month <= 2 then 1 else 0), month, day)
  }

  /** The date of a day of an era. */
  function DateInEra(era: nat, dayOfEra: nat): Date
    requires dayOfEra < 146097
  {
    YearContains(dayOfEra);
    var yearOfEra := YearOf(dayOfEra);
    DateAt(yearOfEra + era * 400, dayOfEra - YearStart(yearOfEra))
  }

  function ToDate(days: nat): Date {
    var shifted := days + 719468;
    var era := shifted / 146097;
    DateInEra(era, shifted - era * 146097)
  }

  lemma {:induction false} ToDateIs(days: nat, era: nat, dayOfEra: nat)
    requires days + 719468 == era * 146097 + dayOfEra && dayOfEra < 146097
    ensures ToDate(days) == DateInEra(era, dayOfEra)
  {
    hide DateInEra;
    DivideUnique(days + 719468, 146097, era, dayOfEra);
  }

  /** A date as an era, a year of it and a day of that year. */
  lemma {:induction false} DateParts(d: Date) returns (era: nat, yearOfEra: nat, dayOfYear: nat)
    requires IsDate(d)
    ensures yearOfEra < 400 && dayOfYear < YearLength(yearOfEra)
    ensures ToDays(d) == era * 146097 + (YearStart(yearOfEra) + dayOfYear) - 719468
    ensures MonthOf(dayOfYear) == MarchMonth(d.month)
    ensures dayOfYear == MonthStart(MarchMonth(d.month)) + (d.day - 1)
    ensures era * 400 + yearOfEra == d.year - (if d.month <= 2 then 1 else 0)
    ensures d.day - 1 < MonthStart(MarchMonth(d.month) + 1) - MonthStart(MarchMonth(d.month))
  {
    var shifted := d.year - (if d.month <= 2 then 1 else 0);
    era, yearOfEra := shifted / 400, shifted % 400;
    dayOfYear := MonthStart(MarchMonth(d.month)) + (d.day - 1);
    MonthLength(d.year, d.month);
    hide YearStart, YearLength, IsLeapYear;
    MonthFits(d.month, d.day - 1, yearOfEra);
    MonthRecovered(MarchMonth(d.month), d.day - 1);
  }

  lemma {:induction false} MonthFits(month: nat, day: nat, yearOfEra: nat)
    requires 1 <= month <= 12 && yearOfEra < 400
    requires month == 2 ==> MonthStart(11) + day < YearLength(yearOfEra)
    requires month != 2 ==> day < MonthStart(MarchMonth(month) + 1) - MonthStart(MarchMonth(month))
    ensures MonthStart(MarchMonth(month)) + day < YearLength(yearOfEra)
    ensures day < MonthStart(MarchMonth(month) + 1) - MonthStart(MarchMonth(month))
  {
    assert MonthStart(11) == 337 && MonthStart(12) == 367;
    var march := MarchMonth(month);
    assert march < 11 ==> MonthStart(march + 1) <= 337;
  }

  /** Every date from the epoch is that of its days. */
  lemma {:induction false} DateOfDays(d: Date)
    requires IsDate(d)
    ensures ToDays(d) >= 0 && ToDate(ToDays(d)) == d
  {
    hide YearStart, YearOf, ToDays, ToDate, DaysInMonth;
    var era, yearOfEra, dayOfYear := DateParts(d);
    YearRecovered(yearOfEra, dayOfYear);
    FromEpoch(era, yearOfEra, dayOfYear, d);
    ToDateIs(ToDays(d), era, YearStart(yearOfEra) + dayOfYear);
    DateAtIs(yearOfEra + era * 400, MarchMonth(d.month), d.day - 1);
  }

  lemma {:induction false} DateAtIs(year: nat, march: nat, day: nat)
    requires march < 12 && day < MonthStart(march + 1) - MonthStart(march) && MonthStart(march) + day < 366
    ensures var month := if march < 10 then march + 3 else march - 9;
      DateAt(year, MonthStart(march) + day) == Date(year + (if month <= 2 then 1 else 0), month, day + 1)
  {
    hide MonthOf, MonthStart;
    MonthRecovered(march, day);
  }

  lemma {:induction false} FromEpoch(era: nat, yearOfEra: nat, dayOfYear: nat, d: Date)
    requires IsDate(d) && yearOfEra < 400 && dayOfYear < YearLength(yearOfEra)
    requires era * 400 + yearOfEra == d.year - (if d.month <= 2 then 1 else 0)
    requires dayOfYear == MonthStart(MarchMonth(d.month)) + (d.day - 1)
    ensures era * 146097 + (YearStart(yearOfEra) + dayOfYear) >= 719468
  {
    assert era >= 4;
    if era == 4 {
      assert yearOfEra >= 369;
      assert YearStart(369) == 134774 && YearStart(370) == 135139;
      YearStartGrows(369, yearOfEra);
      if yearOfEra == 369 {
        assert d.month <= 2;
        assert MonthStart(10) == 306 && MonthStart(11) == 337;
      } else {
        YearStartGrows(370, yearOfEra);
      }
    } else {
      YearStartGrows(0, yearOfEra);
    }
  }

  lemma {:induction false} YearStartGrows(a: nat, b: nat)
    requires a <= b
    ensures YearStart(a) <= YearStart(b)
  {
  }

  /** The date of a day of a year is a date, with that day of that year. */
  lemma {:induction false} DateAtParts(year: nat, dayOfYear: nat)
    requires year >= 1969 && dayOfYear < YearLength(year % 400)
    requires year == 1969 ==> dayOfYear >= MonthStart(10)
    ensures var d := DateAt(year, dayOfYear);
      && IsDate(d) && year == d.year - (if d.month <= 2 then 1 else 0)
      && dayOfYear == MonthStart(MarchMonth(d.month)) + (d.day - 1)
  {
    MonthContains(dayOfYear);
    var d := DateAt(year, dayOfYear);
    MonthLength(d.year, d.month);
    assert MarchMonth(d.month) == MonthOf(dayOfYear);
    assert MonthStart(10) == 306 && MonthStart(11) == 337;
    assert MonthOf(dayOfYear) < 10 ==> MonthStart(MonthOf(dayOfYear) + 1) <= 306;
    hide YearLength, MonthOf, DaysInMonth;
  }

  /** Every count of days is that of a date from the epoch. */
  lemma {:induction false} DaysOfDate(days: nat)
    ensures IsDate(ToDate(days)) && ToDays(ToDate(days)) == days
  {
    hide YearOf, YearStart, YearLength, DateAt, MonthStart;
    var shifted := days + 719468;
    var era := shifted / 146097;
    var dayOfEra := shifted - era * 146097;
    YearContains(dayOfEra);
    var yearOfEra := YearOf(dayOfEra);
    var dayOfYear := dayOfEra - YearStart(yearOfEra);
    var year := yearOfEra + era * 400;
    AfterEpoch(era, yearOfEra, dayOfYear, dayOfEra);
    DivideUnique(year, 400, era, yearOfEra);
    DateAtParts(year, dayOfYear);
    hide IsDate;
  }

  lemma {:induction false} AfterEpoch(era: nat, yearOfEra: nat, dayOfYear: nat, dayOfEra: nat)
    requires era * 146097 + dayOfEra >= 719468 && yearOfEra < 400 && dayOfYear < 366
    requires dayOfEra == YearStart(yearOfEra) + dayOfYear && dayOfEra < 146097
    ensures yearOfEra + era * 400 >= 1969
    ensures yearOfEra + era * 400 == 1969 ==> dayOfYear >= MonthStart(10)
  {
    assert YearStart(369) == 134774 && YearStart(368) == 134409 && MonthStart(10) == 306;
    if yearOfEra < 369 {
      YearStartGrows(yearOfEra, 368);
    }
  }

  // ---- The calendar itself ----

  /** The day that follows a date. */
  function NextDate(d: Date): Date {
    if d.day < DaysInMonth(d.year, d.month) then d.(day := d.day + 1)
    else if d.month < 12 then Date(d.year, d.month + 1, 1)
    else Date(d.year + 1, 1, 1)
  }

  /** Days count up from the epoch, one for each date that follows. */
  lemma {:induction false} DaysCount(d: Date)
    requires IsDate(d)
    ensures IsDate(NextDate(d)) && ToDays(NextDate(d)) == ToDays(d) + 1
    ensures ToDays(Date(EPOCH_YEAR, 1, 1)) == 0
  {
    hide ToDays, YearDays, IsLeapYear, MonthStart, YearLength;
    NextIsDate(d);
    DaysSince(d);
    DaysSince(NextDate(d));
    Epoch();
    MonthLength(d.year, d.month);
    if d.day == DaysInMonth(d.year, d.month) {
      if d.month == 2 {
        MarchFirst(d.year);
      } else {
        assert MarchMonth(NextDate(d).month) == MarchMonth(d.month) + 1;
      }
    }
  }

  /** The days before a year that begins in March. */
  ghost function YearDays(year: nat): int {
    (year / 400) * 146097 + YearStart(year % 400) - 719468
  }

  lemma {:induction false} DaysSince(d: Date)
    requires IsDate(d)
    ensures ToDays(d) == YearDays(d.year - (if d.month <= 2 then 1 else 0)) +
                         MonthStart(MarchMonth(d.month)) + (d.day - 1)
  {
    hide YearStart, MonthStart, DaysInMonth;
  }

  lemma {:induction false} NextIsDate(d: Date)
    requires IsDate(d)
    ensures IsDate(NextDate(d))
  {
    hide IsLeapYear;
  }

  lemma {:induction false} Epoch()
    ensures IsDate(Date(EPOCH_YEAR, 1, 1)) && ToDays(Date(EPOCH_YEAR, 1, 1)) == 0
  {
  }

  /** A year that begins in March follows the end of the one before. */
  lemma {:induction false} MarchFirst(year: nat)
    requires year > 0
    ensures YearDays(year) == YearDays(year - 1) + YearLength((year - 1) % 400)
    ensures MonthStart(MarchMonth(3)) == 0
  {
    var a, y := (year - 1) / 400, (year - 1) % 400;
    assert year - 1 == a * 400 + y;
    if y == 399 {
      DivideUnique(year, 400, a + 1, 0);
      assert YearStart(399) == 145731 && YearStart(0) == 0;
    } else {
      DivideUnique(year, 400, a, y + 1);
      YearNext(y);
    }
  }

  lemma {:induction false} YearNext(y: nat)
    requires y < 399
    ensures YearStart(y + 1) == YearStart(y) + YearLength(y)
  {
    var c, q, r := YearParts(y);
    var c', q', r' := YearParts(y + 1);
    hide YearStart, YearLength;
  }

  lemma {:induction false} YearDaysGrow(a: nat, b: nat)
    requires a < b
    ensures YearDays(a) + YearLength(a % 400) <= YearDays(b)
    decreases b
  {
    hide YearDays, YearLength;
    MarchFirst(b);
    if a < b - 1 {
      YearDaysGrow(a, b - 1);
    }
  }

  /** The dates before a year are those of the days before its first. */
  lemma {:induction false} YearOrdered(days: nat, year: nat)
    requires year >= EPOCH_YEAR
    ensures ToDate(days).year < year <==> days < ToDays(Date(year, 1, 1))
  {
    hide ToDate, ToDays, YearDays, YearLength, YearStart, DaysInMonth;
    var d := ToDate(days);
    DaysOfDate(days);
    DaysSince(d);
    var era, yearOfEra, dayOfYear := DateParts(d);
    var began := d.year - (if d.month <= 2 then 1 else 0);
    DivideUnique(began, 400, era, yearOfEra);
    JanuaryFirst(year);
    MonthLength(d.year, d.month);
    assert MarchMonth(d.month) < 10 ==> MonthStart(MarchMonth(d.month) + 1) <= 306;
    assert MarchMonth(d.month) >= 10 ==> MonthStart(MarchMonth(d.month)) >= 306;
    hide MonthStart;
    if began < year - 1 {
      YearDaysGrow(began, year - 1);
    } else if began > year - 1 {
      YearDaysGrow(year - 1, began);
    }
  }

  lemma {:induction false} JanuaryFirst(year: nat)
    requires year >= EPOCH_YEAR
    ensures IsDate(Date(year, 1, 1)) && ToDays(Date(year, 1, 1)) == YearDays(year - 1) + 306
  {
    DaysSince(Date(year, 1, 1));
    hide ToDays, YearDays;
  }
}
