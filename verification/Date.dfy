/** The calendar arithmetic of the DATE fingerprint: the Gregorian calendar without a
  * year 0, and day numbers, over all integers. */
module Dates {

  datatype Ymd = Ymd(year: int, month: int, day: int)

  /** Year 0 is left out of the calendar: year -1 counts as astronomical year 0. */
  function Astronomical(year: int): int {
    if year < 0 then year + 1 else year
  }

  predicate IsLeapYear(year: int) {
    var y := Astronomical(year);
    y % 4 == 0 && (y % 400 == 0 || y % 100 != 0)
  }

  function MonthLength(year: int, month: int): int {
    if month in [1, 3, 5, 7, 8, 10, 12] then 31
    else if month == 2 then if IsLeapYear(year) then 29 else 28
    else 30
  }

  /** The dates pop_ymd accepts. */
  predicate IsDate(d: Ymd) {
    d.year != 0 && 1 <= d.month <= 12 && 1 <= d.day <= MonthLength(d.year, d.month)
  }

  /** ymd_to_julian; the floors of the source are floors here. */
  function YmdToJulian(d: Ymd): int {
    var a := (14 - d.month) / 12;
    var y := Astronomical(d.year) + 4800 - a;
    var m := d.month + 12 * a - 3;
    d.day + (153 * m + 2) / 5 + 365 * y + y / 4 - y / 100 + y / 400 - 32045
  }

  // The divisions of julian_to_ymd, each the floor of the source.

  function CenturyAt(l: int): int { 4 * l / 146097 }

  function CenturyStart(n: int): int { (146097 * n + 3) / 4 }

  function YearAt(l: int): int { 4000 * (l + 1) / 1461001 }

  function YearStart(i: int): int { 1461 * i / 4 }

  function MonthAt(l: int): int { 80 * l / 2447 }

  function MonthStart(j: int): int { 2447 * j / 80 }

  /** julian_to_ymd */
  function JulianToYmd(date: int): Ymd {
    var l0 := date + 68569;
    var n := CenturyAt(l0);
    var l1 := l0 - CenturyStart(n);
    var i := YearAt(l1);
    var l2 := l1 - YearStart(i) + 31;
    var j := MonthAt(l2);
    var l3 := j / 11;
    var year := 100 * (n - 49) + i + l3;
    Ymd(if year <= 0 then year - 1 else year, j + 2 - 12 * l3, l2 - MonthStart(j))
  }

  // ----- the calendar, by its own rules

  /** The day after d. */
  function NextDay(d: Ymd): (n: Ymd)
    requires IsDate(d)
    ensures IsDate(n)
  {
    if d.day < MonthLength(d.year, d.month) then Ymd(d.year, d.month, d.day + 1)
    else if d.month < 12 then Ymd(d.year, d.month + 1, 1)
    else Ymd(if d.year == -1 then 1 else d.year + 1, 1, 1)
  }

  /** The day before d. */
  function PreviousDay(d: Ymd): (p: Ymd)
    requires IsDate(d)
    ensures IsDate(p)
  {
    if d.day > 1 then Ymd(d.year, d.month, d.day - 1)
    else if d.month > 1 then Ymd(d.year, d.month - 1, MonthLength(d.year, d.month - 1))
    else Ymd(if d.year == 1 then -1 else d.year - 1, 12, 31)
  }

  lemma PreviousOfNext(d: Ymd)
    requires IsDate(d)
    ensures PreviousDay(NextDay(d)) == d && NextDay(PreviousDay(d)) == d
  {
  }

  // ----- years that begin in March

  /** The date as a day of a year beginning with March: the month counts from March 0. */
  function MarchYear(d: Ymd): int { Astronomical(d.year) + (if d.month <= 2 then -1 else 0) }

  function MarchMonth(d: Ymd): int { if d.month <= 2 then d.month + 9 else d.month - 3 }

  /** The day of the March-based year, counted from 1. */
  function DayOfMarchYear(month: int, day: int): int { day + (153 * month + 2) / 5 }

  /** A leap day ends the March-based year y exactly when y + 1 is a leap year. */
  predicate EndsInLeapDay(y: int) { (y + 1) % 4 == 0 && ((y + 1) % 400 == 0 || (y + 1) % 100 != 0) }

  function MarchMonthLength(y: int, month: int): int {
    if month in [1, 3, 6, 8] then 30 else if month == 11 then if EndsInLeapDay(y) then 29 else 28 else 31
  }

  lemma MarchForm(d: Ymd)
    requires IsDate(d)
    ensures 0 <= MarchMonth(d) <= 11 && 1 <= d.day <= MarchMonthLength(MarchYear(d), MarchMonth(d))
    ensures var y := MarchYear(d) + 4800;
      YmdToJulian(d) == DayOfMarchYear(MarchMonth(d), d.day) + 365 * y + y / 4 - y / 100 + y / 400 - 32045
  {
  }

  // ----- julian_to_ymd inverts ymd_to_julian

  /** A day of the March-based century: the years and days before it within the century. */
  lemma DayOfCentury(d: Ymd)
    requires IsDate(d)
    ensures var y := MarchYear(d) + 4800; var e := DayOfMarchYear(MarchMonth(d), d.day) + 365 * (y % 100) + (y % 100) / 4;
      YmdToJulian(d) + 68569 == e + 36524 * (y / 100 + 1) + y / 100 / 4
  {
    hide *;
    MarchForm(d);
    var y := MarchYear(d) + 4800;
    var c, r := y / 100, y % 100;
    assert y == 100 * c + r && y / 4 == 25 * c + r / 4 && y / 400 == c / 4;
  }

  /** A March-based year has 365 days, or 366 when it ends in a leap day. */
  lemma DayOfMarchYearBounds(y: int, month: int, day: int)
    requires 0 <= month <= 11 && 1 <= day <= MarchMonthLength(y, month)
    ensures 1 <= DayOfMarchYear(month, day) <= if EndsInLeapDay(y) then 366 else 365
  {
  }

  /** A year that ends in a leap day is the last of its four; if it is also the last of its
    * century, the century is the last of four. */
  lemma LeapDayPlaces(year: int, c: int, r: int)
    requires EndsInLeapDay(year) && year + 4800 == 100 * c + r && 0 <= r <= 99
    ensures r % 4 == 3 && (r == 99 ==> c % 4 == 3)
  {
    assert year + 1 == 4 * (25 * c - 1200) + r + 1;
    if r == 99 {
      assert year + 1 == 100 * (c - 47);
      assert (year + 1) % 400 == 0;
      assert c == 4 * ((year + 1) / 400) + 47;
    }
  }

  lemma CenturyFound(c: int, e: int, l0: int)
    requires l0 == e + 36524 * (c + 1) + c / 4
    requires 1 <= e <= if c % 4 == 3 then 36525 else 36524
    ensures CenturyAt(l0) == c + 1 && l0 - CenturyStart(c + 1) == e - 1
  {
    assert 4 * l0 - 146097 * (c + 1) == 4 * e - 1 - c % 4;
    assert (146097 * (c + 1) + 3) / 4 == 36524 * (c + 1) + (c + 4) / 4;
  }

  lemma YearFound(r: int, d: int)
    requires 0 <= r <= 99 && 1 <= d <= if r % 4 == 3 then 366 else 365
    ensures YearAt(d + 365 * r + r / 4 - 1) == r && YearStart(r) == 365 * r + r / 4
  {
    assert 4000 * (d + 365 * r + r / 4) - 1461001 * r == 4000 * d - 4 * (r / 4) - 1001 * (r % 4);
  }

  lemma MonthFound(m: int, day: int, y: int)
    requires 0 <= m <= 11 && 1 <= day <= MarchMonthLength(y, m)
    ensures MonthAt(DayOfMarchYear(m, day) + 30) == m + 1
    ensures DayOfMarchYear(m, day) + 30 - MonthStart(m + 1) == day
  {
  }

  lemma FromMarch(d: Ymd)
    requires IsDate(d)
    ensures var l3 := (MarchMonth(d) + 1) / 11; var year := MarchYear(d) + l3;
      d == Ymd(if year <= 0 then year - 1 else year, MarchMonth(d) + 3 - 12 * l3, d.day)
  {
  }

  lemma RoundTripOf(d: Ymd, c: int, r: int)
    requires IsDate(d) && 0 <= r <= 99 && MarchYear(d) + 4800 == 100 * c + r
    requires YmdToJulian(d) + 68569 == DayOfMarchYear(MarchMonth(d), d.day) + 365 * r + r / 4 + 36524 * (c + 1) + c / 4
    ensures JulianToYmd(YmdToJulian(d)) == d
  {
    hide YmdToJulian, MarchYear, MarchMonth, MarchMonthLength, EndsInLeapDay, DayOfMarchYear, IsDate, CenturyAt,
      CenturyStart, YearAt, YearStart, MonthAt, MonthStart;
    var y, m := MarchYear(d), MarchMonth(d);
    var day := DayOfMarchYear(m, d.day);
    MarchForm(d);
    DayOfMarchYearBounds(y, m, d.day);
    if EndsInLeapDay(y) {
      LeapDayPlaces(y, c, r);
    }
    CenturyFound(c, day + 365 * r + r / 4, YmdToJulian(d) + 68569);
    YearFound(r, day);
    MonthFound(m, d.day, y);
    FromMarch(d);
  }

  /** Converting an accepted date to a day number and back gives the date. */
  lemma DateRoundTrip(d: Ymd)
    requires IsDate(d)
    ensures JulianToYmd(YmdToJulian(d)) == d
  {
    hide *;
    DayOfCentury(d);
    RoundTripOf(d, (MarchYear(d) + 4800) / 100, (MarchYear(d) + 4800) % 100);
  }

  // ----- day numbers follow the calendar

  function LeapDays(y: int): int { y / 4 - y / 100 + y / 400 }

  function MarchNumber(year: int, month: int, day: int): int {
    DayOfMarchYear(month, day) + 365 * (year + 4800) + LeapDays(year + 4800) - 32045
  }

  lemma NumberOf(d: Ymd)
    requires IsDate(d)
    ensures YmdToJulian(d) == MarchNumber(MarchYear(d), MarchMonth(d), d.day)
  {
    hide YmdToJulian;
    MarchForm(d);
  }

  /** The next day, in a year that begins in March. */
  lemma NextInMarchForm(d: Ymd)
    requires IsDate(d)
    ensures var n := NextDay(d); var y, m := MarchYear(d), MarchMonth(d);
      if d.day < MarchMonthLength(y, m) then MarchYear(n) == y && MarchMonth(n) == m && n.day == d.day + 1
      else if m < 11 then MarchYear(n) == y && MarchMonth(n) == m + 1 && n.day == 1
      else MarchYear(n) == y + 1 && MarchMonth(n) == 0 && n.day == 1
  {
  }

  lemma NextNumberInMarchForm(y: int, m: int, day: int)
    requires 0 <= m <= 11 && 1 <= day <= MarchMonthLength(y, m)
    ensures day < MarchMonthLength(y, m) ==> MarchNumber(y, m, day + 1) == MarchNumber(y, m, day) + 1
    ensures day == MarchMonthLength(y, m) && m < 11 ==> MarchNumber(y, m + 1, 1) == MarchNumber(y, m, day) + 1
    ensures day == MarchMonthLength(y, m) && m == 11 ==> MarchNumber(y + 1, 0, 1) == MarchNumber(y, m, day) + 1
  {
    hide LeapDays, EndsInLeapDay;
    YearTurns(y);
  }

  /** The day number grows by one from each day of the calendar to the next. */
  lemma NextDayIsNextNumber(d: Ymd)
    requires IsDate(d)
    ensures YmdToJulian(NextDay(d)) == YmdToJulian(d) + 1
  {
    hide *;
    MarchForm(d);
    NumberOf(d);
    NumberOf(NextDay(d));
    NextInMarchForm(d);
    NextNumberInMarchForm(MarchYear(d), MarchMonth(d), d.day);
  }

  lemma PreviousDayIsPreviousNumber(d: Ymd)
    requires IsDate(d)
    ensures YmdToJulian(PreviousDay(d)) == YmdToJulian(d) - 1
  {
    hide YmdToJulian, IsDate, NextDay, PreviousDay;
    NextDayIsNextNumber(PreviousDay(d));
    PreviousOfNext(d);
  }

  lemma Turn4(y: int)
    ensures (y + 4801) / 4 == (y + 4800) / 4 + if (y + 1) % 4 == 0 then 1 else 0
  {
    assert (y + 4800) / 4 == y / 4 + 1200;
  }

  lemma Turn100(y: int)
    ensures (y + 4801) / 100 == (y + 4800) / 100 + if (y + 1) % 100 == 0 then 1 else 0
  {
    assert (y + 4800) / 100 == y / 100 + 48;
  }

  lemma Turn400(y: int)
    ensures (y + 4801) / 400 == (y + 4800) / 400 + if (y + 1) % 400 == 0 then 1 else 0
  {
    assert (y + 4800) / 400 == y / 400 + 12;
  }

  lemma Multiples(y: int)
    ensures y % 400 == 0 ==> y % 100 == 0
    ensures y % 100 == 0 ==> y % 4 == 0
  {
    if y % 100 == 0 {
      assert y == 4 * (25 * (y / 100));
    }
    if y % 400 == 0 {
      assert y == 100 * (4 * (y / 400));
    }
  }

  /** A step of the year adds a leap day exactly when the year ends in one. */
  lemma YearTurns(y: int)
    ensures LeapDays(y + 4801) == LeapDays(y + 4800) + if EndsInLeapDay(y) then 1 else 0
  {
    Turn4(y);
    Turn100(y);
    Turn400(y);
    Multiples(y + 1);
  }

  /** The first day of the calendar's day count, a known date with a known number. */
  lemma DayZero()
    ensures IsDate(Ymd(-4714, 11, 24)) && YmdToJulian(Ymd(-4714, 11, 24)) == 0
  {
  }

  /** Every integer is the number of an accepted date, and converting it to that date and
    * back gives the integer. */
  lemma {:induction false} NumberRoundTrip(j: int)
    ensures IsDate(JulianToYmd(j)) && YmdToJulian(JulianToYmd(j)) == j
    decreases if j < 0 then -j else j
  {
    hide YmdToJulian, JulianToYmd, IsDate, NextDay, PreviousDay;
    DayZero();
    var d := Ymd(-4714, 11, 24);
    if j > 0 {
      NumberRoundTrip(j - 1);
      d := NextDay(JulianToYmd(j - 1));
      NextDayIsNextNumber(JulianToYmd(j - 1));
    } else if j < 0 {
      NumberRoundTrip(j + 1);
      d := PreviousDay(JulianToYmd(j + 1));
      PreviousDayIsPreviousNumber(JulianToYmd(j + 1));
    }
    DateRoundTrip(d);
  }

  /** The conversions are a bijection that carries "one more" to "the next day". */
  lemma NextNumberIsNextDay(j: int)
    ensures IsDate(JulianToYmd(j)) && JulianToYmd(j + 1) == NextDay(JulianToYmd(j))
  {
    hide YmdToJulian, JulianToYmd, IsDate, NextDay;
    NumberRoundTrip(j);
    NextDayIsNextNumber(JulianToYmd(j));
    DateRoundTrip(NextDay(JulianToYmd(j)));
  }

  /** Different accepted dates have different numbers. */
  lemma NumbersAreUnique(a: Ymd, b: Ymd)
    requires IsDate(a) && IsDate(b) && YmdToJulian(a) == YmdToJulian(b)
    ensures a == b
  {
    hide YmdToJulian, JulianToYmd, IsDate;
    DateRoundTrip(a);
    DateRoundTrip(b);
  }

  // ----- the instructions

  /** A: the date `days` after d. */
  function AddDays(d: Ymd, days: int): Ymd { JulianToYmd(YmdToJulian(d) + days) }

  /** D: the days from a to b. */
  function DaysBetween(a: Ymd, b: Ymd): int { YmdToJulian(b) - YmdToJulian(a) }

  /** A and D undo each other on accepted dates, and A keeps to the calendar, whatever the
    * number of days: each day added is one step of NextDay. */
  lemma AddUndoesDifference(a: Ymd, b: Ymd, days: int)
    requires IsDate(a) && IsDate(b)
    ensures AddDays(a, DaysBetween(a, b)) == b
    ensures IsDate(AddDays(a, days)) && DaysBetween(a, AddDays(a, days)) == days
    ensures AddDays(a, days + 1) == NextDay(AddDays(a, days)) && AddDays(a, 0) == a
  {
    hide YmdToJulian, JulianToYmd, IsDate, NextDay;
    DateRoundTrip(b);
    DateRoundTrip(a);
    NumberRoundTrip(YmdToJulian(a) + days);
    NextNumberIsNextDay(YmdToJulian(a) + days);
  }

  /** The remainder of C: its sign is that of the dividend. */
  function Remainder(a: int, b: int): int
    requires b > 0
  {
    if a < 0 then -(-a % b) else a % b
  }

  /** W: the day of the week, Monday being 0. */
  function WeekDay(d: Ymd): int { Remainder(YmdToJulian(d), 7) }

  /** W is a number from 0 to 6 only for days from day 0 on, and for whole weeks before it;
    * the earlier days of a week come out negative. */
  lemma WeekDayInRange(d: Ymd)
    ensures 0 <= WeekDay(d) <= 6 <==> YmdToJulian(d) >= 0 || YmdToJulian(d) % 7 == 0
    ensures (WeekDay(d) - YmdToJulian(d)) % 7 == 0 && -6 <= WeekDay(d) <= 6
  {
    hide YmdToJulian;
    RemainderOfSeven(YmdToJulian(d));
  }

  lemma RemainderOfSeven(j: int)
    ensures var r := Remainder(j, 7);
      (r - j) % 7 == 0 && -6 <= r <= 6 && (0 <= r <= 6 <==> j >= 0 || j % 7 == 0)
  {
    var k := if j < 0 then -j else j;
    var q, m := k / 7, k % 7;
    assert k == 7 * q + m;
    if j < 0 {
      assert j == 7 * (-q) - m;
      SevensAndRest(-q, -m);
      SevensAndRest(q, 0);
    } else {
      assert j == 7 * q + m;
      SevensAndRest(-q, 0);
    }
  }

  lemma SevensAndRest(q: int, m: int)
    requires -7 < m < 7
    ensures (7 * q + m) % 7 == if m < 0 then m + 7 else m
  {
  }

  lemma WeekDayBeforeDayZero()
    ensures IsDate(Ymd(-4714, 11, 23)) && WeekDay(Ymd(-4714, 11, 23)) == -1
  {
    hide YmdToJulian;
    DayZero();
    PreviousDayIsPreviousNumber(Ymd(-4714, 11, 24));
  }

  function YearLength(year: int): int { if IsLeapYear(year) then 366 else 365 }

  /** The days of the first `months` months of a year. */
  function DaysBefore(year: int, months: nat): int
    requires months <= 12
  {
    if months == 0 then 0 else DaysBefore(year, months - 1) + MonthLength(year, months)
  }

  lemma MonthsFillTheYear(year: int)
    ensures DaysBefore(year, 12) == YearLength(year)
  {
    hide IsLeapYear;
    assert DaysBefore(year, 1) == 31 && DaysBefore(year, 2) == if IsLeapYear(year) then 60 else 59;
    assert DaysBefore(year, 4) == DaysBefore(year, 3) + 30 == DaysBefore(year, 2) + 61;
    assert DaysBefore(year, 6) == DaysBefore(year, 5) + 30 == DaysBefore(year, 4) + 61;
    assert DaysBefore(year, 8) == DaysBefore(year, 7) + 31 == DaysBefore(year, 6) + 62;
    assert DaysBefore(year, 10) == DaysBefore(year, 9) + 31 == DaysBefore(year, 8) + 61;
    assert DaysBefore(year, 12) == DaysBefore(year, 11) + 31 == DaysBefore(year, 10) + 61;
  }

  /** Y: the days since the first day of the year. */
  function YearDay(d: Ymd): int { YmdToJulian(d) - YmdToJulian(Ymd(d.year, 1, 1)) }

  /** Y counts the days of the months before d's month, so it starts each year at 0. */
  lemma YearDayCounts(d: Ymd)
    requires IsDate(d)
    ensures YearDay(d) == DaysBefore(d.year, d.month - 1) + d.day - 1
    ensures 0 <= YearDay(d) < YearLength(d.year)
  {
    hide YmdToJulian, IsLeapYear;
    MonthsFillTheYear(d.year);
    YearDayByMonth(d.year, d.month, d.day);
    DaysBeforeGrows(d.year, d.month, 12);
    DaysBeforeGrows(d.year, 0, d.month - 1);
  }

  lemma {:induction false} DaysBeforeGrows(year: int, m: nat, n: nat)
    requires m <= n <= 12
    ensures DaysBefore(year, m) <= DaysBefore(year, n)
    decreases n - m
  {
    if m < n {
      DaysBeforeGrows(year, m, n - 1);
    }
  }

  lemma {:induction false} YearDayByMonth(year: int, month: int, day: int)
    requires IsDate(Ymd(year, month, day))
    ensures YearDay(Ymd(year, month, day)) == DaysBefore(year, month - 1) + day - 1
    decreases month, day
  {
    var d := Ymd(year, month, day);
    if month > 1 || day > 1 {
      var p := PreviousDay(d);
      YearDayByMonth(year, p.month, p.day);
      PreviousDayIsPreviousNumber(d);
    }
  }

  /** T: the date with day-of-year n (from 0) in a year; none when n is past the year. A
    * negative n, and the year 0, are let through. */
  method YearDayToFull(year: int, n: int) returns (ok: bool, d: Ymd)
    ensures ok <==> n < YearLength(year)
    ensures ok && n >= 0 ==> (d.year == year && 1 <= d.month <= 12 && 1 <= d.day <= MonthLength(year, d.month)
                              && DaysBefore(year, d.month - 1) + d.day - 1 == n)
    ensures ok && n < 0 ==> d == Ymd(year, 1, n + 1)
  {
    var doy := n + 1;
    d := Ymd(year, 1, doy);
    ok := doy <= YearLength(year);
    if ok {
      var dom := doy;
      var month: nat, i: nat := 0, 0;
      MonthsFillTheYear(year);
      while i < 12
        invariant i == month <= 12
        invariant dom == doy - DaysBefore(year, month)
        invariant month > 0 ==> dom > 0 && doy > 0
      {
        var mlength := MonthLength(year, i + 1);
        if dom - mlength > 0 {
          dom := dom - mlength;
          month := month + 1;
        } else {
          break;
        }
        i := i + 1;
      }
      d := Ymd(year, month + 1, dom);
    }
  }

  /** T undoes Y on every accepted date, and Y undoes T on every day-of-year T should take. */
  method YearDayRoundTrip(d: Ymd, year: int, n: nat) returns (t: Ymd, u: Ymd)
    requires IsDate(d) && year != 0 && n < YearLength(year)
    ensures t == d
    ensures IsDate(u) && u.year == year && YearDay(u) == n
  {
    hide YearDay, YearLength, DaysBefore, MonthLength, IsLeapYear, YmdToJulian;
    var ok;
    YearDayCounts(d);
    ok, t := YearDayToFull(d.year, YearDay(d));
    YearDayCounts(t);
    SameYearDay(d, t);
    ok, u := YearDayToFull(year, n);
    YearDayCounts(u);
  }

  lemma SameYearDay(a: Ymd, b: Ymd)
    requires IsDate(a) && IsDate(b) && a.year == b.year && YearDay(a) == YearDay(b)
    ensures a == b
  {
    hide YmdToJulian;
    NumbersAreUnique(a, b);
  }

  /** T accepts a negative day-of-year and the year 0, and the date it then gives is never one
    * that pop_ymd accepts; in all other cases it is. */
  method YearDayAccepted(year: int, n: int) returns (ok: bool, d: Ymd)
    ensures ok <==> n < YearLength(year)
    ensures ok ==> (IsDate(d) <==> n >= 0 && year != 0)
  {
    ok, d := YearDayToFull(year, n);
  }

  /** Two dates T gives that are none: the day before the first of the year 2000, and the
    * first day of the year 0. */
  method BadDatesAccepted() returns (ok1: bool, d1: Ymd, ok2: bool, d2: Ymd)
    ensures ok1 && d1 == Ymd(2000, 1, 0) && !IsDate(d1)
    ensures ok2 && d2 == Ymd(0, 1, 1) && !IsDate(d2)
  {
    ok1, d1 := YearDayToFull(2000, -1);
    ok2, d2 := YearDayToFull(0, 0);
    if d2.month > 1 {
      DaysBeforeGrows(0, 1, d2.month - 1);
    }
  }
}
