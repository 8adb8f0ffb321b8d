/** The calendar conversions of libbase/Utils.cpp, with a leap year every four years and time zone +8. */
module Calendar {
  const U32 := 0x1_0000_0000
  const FOUR_YEARS := 365 * 4 + 1

  /** A date: year, month from 0 to 11, day from 1. */
  datatype Date = Date(year: int, month: int, day: int)

  predicate Leap(year: int) {
    year % 4 == 0
  }

  function MonthLength(month: int, leap: bool): int {
    if month == 1 then if leap then 29 else 28
    else if month == 3 || month == 5 || month == 8 || month == 10 then 30
    else 31
  }

  /** The days of a year before a month; month 12 stands for the whole year. */
  function MonthBegin(month: nat, leap: bool): int {
    if month == 0 then 0 else MonthBegin(month - 1, leap) + MonthLength(month - 1, leap)
  }

  ghost predicate Valid(d: Date) {
    d.year >= 1970 && 0 <= d.month < 12 && 1 <= d.day <= MonthLength(d.month, Leap(d.year))
  }

  /** The day after. */
  function Next(d: Date): Date {
    if d.day < MonthLength(d.month, Leap(d.year)) then d.(day := d.day + 1)
    else if d.month < 11 then Date(d.year, d.month + 1, 1)
    else Date(d.year + 1, 0, 1)
  }

  /** The calendar by counting: `n` days after 1 January 1970. */
  function DateAt(n: nat): Date {
    if n == 0 then Date(1970, 0, 1) else Next(DateAt(n - 1))
  }

  /** The days from 1 January 1970 to 1 January of a year, as tm_to_time counts them. */
  function YearBegin(year: int): int {
    365 * (year - 1970) + Quot(year - 1969, 4)
  }

  /** The quotient of C, rounded towards zero. */
  function Quot(a: int, b: int): int
    requires b > 0
  {
    if a >= 0 then a / b else -((-a) / b)
  }

  /** The remainder of C, with the sign of the dividend. */
  function Rem(a: int, b: int): int
    requires b > 0
  {
    if a >= 0 then a % b else -((-a) % b)
  }

  function DaysTo(d: Date): int
    requires d.month >= 0
  {
    YearBegin(d.year) + MonthBegin(d.month, Leap(d.year)) + d.day - 1
  }

  lemma MonthBegins(leap: bool)
    ensures MonthBegin(1, leap) == 31 && MonthBegin(12, leap) == if leap then 366 else 365
    ensures MonthBegin(2, leap) == if leap then 60 else 59
    ensures forall m :: 0 <= m < 12 ==> 0 <= MonthBegin(m, leap) && MonthBegin(m, leap) + MonthLength(m, leap) <= MonthBegin(12, leap)
  {
    var a := [0, 31, 59, 90, 120, 151, 181, 212, 243, 273, 304, 334, 365];
    var m := 0;
    while m < 12
      invariant 0 <= m <= 12 && forall k :: 0 <= k <= m ==> MonthBegin(k, leap) == a[k] + if leap && k > 1 then 1 else 0
    {
      m := m + 1;
    }
  }

  /** The table monthbegin with its leap correction. */
  lemma MonthTable(m: nat, leap: bool)
    requires m < 12
    ensures MonthBegin(m, leap) == [0, 31, 59, 90, 120, 151, 181, 212, 243, 273, 304, 334][m] + if leap && m > 1 then 1 else 0
  {
    var a := [0, 31, 59, 90, 120, 151, 181, 212, 243, 273, 304, 334];
    var k := 0;
    while k < m
      invariant 0 <= k <= m && MonthBegin(k, leap) == a[k] + if leap && k > 1 then 1 else 0
    {
      k := k + 1;
    }
  }

  lemma YearStep(year: int)
    requires year >= 1970
    ensures YearBegin(year + 1) == YearBegin(year) + if Leap(year) then 366 else 365
    ensures YearBegin(1970) == 0
  {
  }

  lemma NextCounts(d: Date)
    requires Valid(d)
    ensures Valid(Next(d)) && DaysTo(Next(d)) == DaysTo(d) + 1
  {
    MonthBegins(Leap(d.year));
    YearStep(d.year);
    assert MonthBegin(d.month + 1, Leap(d.year)) == MonthBegin(d.month, Leap(d.year)) + MonthLength(d.month, Leap(d.year));
  }

  lemma {:induction false} CountingIs(n: nat)
    ensures Valid(DateAt(n)) && DaysTo(DateAt(n)) == n
  {
    if n == 0 {
      YearStep(1970);
    } else {
      CountingIs(n - 1);
      NextCounts(DateAt(n - 1));
    }
  }

  /** Earlier in the usual order of dates. */
  predicate Before(a: Date, b: Date) {
    a.year < b.year || (a.year == b.year && (a.month < b.month || (a.month == b.month && a.day < b.day)))
  }

  lemma {:induction false} MonthsGrow(a: nat, b: nat, leap: bool)
    requires a < b <= 12
    ensures MonthBegin(a, leap) + MonthLength(a, leap) <= MonthBegin(b, leap)
    decreases b - a
  {
    if a + 1 < b {
      MonthsGrow(a, b - 1, leap);
    }
  }

  lemma {:induction false} YearsGrow(a: int, b: int)
    requires 1970 <= a < b
    ensures YearBegin(a) + (if Leap(a) then 366 else 365) <= YearBegin(b)
    decreases b - a
  {
    YearStep(a);
    if a + 1 < b {
      YearsGrow(a, b - 1);
      YearStep(b - 1);
    }
  }

  lemma DaysGrow(a: Date, b: Date)
    requires Valid(a) && Valid(b) && Before(a, b)
    ensures DaysTo(a) < DaysTo(b)
  {
    MonthBegins(Leap(a.year));
    MonthBegins(Leap(b.year));
    if a.year < b.year {
      YearsGrow(a.year, b.year);
    } else if a.month < b.month {
      MonthsGrow(a.month, b.month, Leap(a.year));
    }
  }

  /** A date is determined by its day number, and is the one that counting reaches. */
  lemma DateIs(d: Date)
    requires Valid(d)
    ensures DaysTo(d) >= 0 && DateAt(DaysTo(d)) == d
  {
    YearStep(1970);
    MonthBegins(Leap(d.year));
    if d.year > 1970 {
      YearsGrow(1970, d.year);
    }
    var e := DateAt(DaysTo(d));
    CountingIs(DaysTo(d));
    if Before(d, e) {
      DaysGrow(d, e);
    } else if Before(e, d) {
      DaysGrow(e, d);
    }
  }

  /** struct tm; tm_year counts from 1900. */
  class Tm {
    var tmSec: int
    var tmMin: int
    var tmHour: int
    var tmMday: int
    var tmMon: int
    var tmYear: int
    var tmWday: int
    var tmYday: int
    var tmIsdst: int

    constructor ()
      ensures DateOf() == Date(1970, 0, 1) && tmSec == tmMin == tmHour == 0
    {
      tmSec, tmMin, tmHour, tmMday, tmMon, tmYear, tmWday, tmYday, tmIsdst := 0, 0, 0, 1, 0, 70, 0, 0, 0;
    }

    function DateOf(): Date
      reads this
    {
      Date(tmYear + 1900, tmMon, tmMday)
    }
  }

  /** The day in time zone +8 that time_to_tm computes: it keeps the low 32 bits of the time only. */
  function DayOf(time: nat): nat {
    (time % U32 / 3600 + 8) / 24
  }

  /** The year within a block of four, and the days left in it; the day after its last still counts as its day. */
  method FindYear(leave: nat) returns (i: nat, left: nat)
    requires leave < FOUR_YEARS
    ensures i < 4 && leave == left + 365 * i + (if i == 3 then 1 else 0)
    ensures left <= if i == 2 then 366 else 365
    ensures left == 0 ==> i == 0
  {
    var leapYear := [false, false, true, false];
    left := leave;
    i := 0;
    while i < 4
      invariant i <= 3 && leave == left + 365 * i + (if i == 3 then 1 else 0)
      invariant i > 0 ==> left > 0
    {
      var dayCount := if leapYear[i] then 366 else 365;
      if left <= dayCount {
        break;
      }
      left := left - dayCount;
      i := i + 1;
    }
  }

  lemma MonthStep(j: nat, leap: bool)
    requires j < 12
    ensures MonthBegin(j + 1, leap) == MonthBegin(j, leap) + MonthLength(j, leap)
    ensures MonthLength(j, leap) == if leap && j == 1 then 29 else [31, 28, 31, 30, 31, 30, 31, 31, 30, 31, 30, 31][j]
  {
  }

  /** The month of a day of the year, and the day in it from 0; month 12 for the day after the last. */
  method FindMonth(leave: nat, leap: bool) returns (j: nat, left: nat)
    requires leave <= if leap then 366 else 365
    ensures j <= 12 && leave == MonthBegin(j, leap) + left
    ensures if j < 12 then left < MonthLength(j, leap) else left == 0
  {
    var monthDays := [31, 28, 31, 30, 31, 30, 31, 31, 30, 31, 30, 31];
    MonthBegins(leap);
    assert MonthBegin(0, leap) == 0;
    hide MonthBegin, MonthLength;
    left := leave;
    j := 0;
    while j < 12
      invariant j <= 12 && leave == MonthBegin(j, leap) + left
      invariant j == 12 ==> left == 0
    {
      MonthStep(j, leap);
      if leap && j == 1 {
        if left < 29 {
          break;
        } else if left == 29 {
          j := j + 1;
          left := 0;
          break;
        } else {
          left := left - 29;
        }
        j := j + 1;
        continue;
      }
      if left < monthDays[j] {
        break;
      } else if left == monthDays[j] {
        j := j + 1;
        left := 0;
        break;
      } else {
        left := left - monthDays[j];
      }
      j := j + 1;
    }
  }

  /** The last day of the year before is reached through month 12, and leaves its length in tm_yday. */
  function DayOfYear(d: Date): int
    requires d.month >= 0
  {
    if d.month == 0 && d.day == 1 && d.year % 4 != 2 then if Leap(d.year - 1) then 366 else 365
    else MonthBegin(d.month, Leap(d.year)) + d.day - 1
  }

  /** The block of four years, the year in it, the month and the day make up the day number. */
  lemma Assemble(block: nat, i: nat, left: nat, j: nat, day: nat)
    requires i < 4 && left <= (if i == 2 then 366 else if i == 3 then 364 else 365) && (left == 0 ==> i == 0)
    requires j <= 12 && left == MonthBegin(j, i == 2) + day && if j < 12 then day < MonthLength(j, i == 2) else day == 0
    ensures var year := block * 4 + i + 1970;
      var d := if j < 12 then Date(year, j, day + 1) else Date(year + 1, 0, 1);
      Valid(d) && DaysTo(d) == block * FOUR_YEARS + 365 * i + (if i == 3 then 1 else 0) + left && left == DayOfYear(d)
  {
    var year := block * 4 + i + 1970;
    YearBlock(block, i);
    MonthBegins(i == 2);
    YearStep(year);
    assert Leap(year) <==> i == 2;
    if j == 12 {
      assert YearBegin(year + 1) == YearBegin(year) + left;
      assert MonthBegin(0, Leap(year + 1)) == 0;
    }
  }

  lemma YearBlock(block: nat, i: nat)
    requires i < 4
    ensures YearBegin(block * 4 + i + 1970) == block * FOUR_YEARS + 365 * i + if i == 3 then 1 else 0
  {
  }

  lemma Minutes(t: nat)
    ensures t % U32 / 60 / 60 == t % U32 / 3600 && (t % U32 / 3600 + 8) / 24 == DayOf(t)
  {
    Sixty(t % U32);
  }

  lemma Sixty(u: nat)
    ensures u / 60 / 60 == u / 3600
  {
  }

  lemma ValidMonth(d: Date)
    requires Valid(d)
    ensures d.year >= 1970 && 0 <= d.month < 12 && d.day <= MonthLength(d.month, Leap(d.year))
  {
  }

  /** time_to_tm */
  method TimeToTm(time: nat, tm: Tm)
    modifies tm
    ensures Valid(tm.DateOf()) && tm.DateOf() == DateAt(DayOf(time))
    ensures tm.tmSec == time % 60 && tm.tmMin == time % U32 / 60 % 60 && tm.tmHour == (time % U32 / 3600 + 8) % 24
    ensures tm.tmWday == (DayOf(time) + 4) % 7 && tm.tmYday == DayOfYear(tm.DateOf()) && tm.tmIsdst == -1
  {
    hide DaysTo, MonthBegin, MonthLength, Valid, DayOfYear, DayOf, DateAt;
    tm.tmSec := time % 60;
    var temp := time % U32 / 60;
    tm.tmMin := temp % 60;
    Minutes(time);
    temp := temp / 60;
    temp := temp + 8;
    tm.tmHour := temp % 24;
    temp := temp / 24;
    tm.tmWday := (temp + 4) % 7;
    SetDate(temp, tm);
    tm.tmIsdst := -1;
  }

  /** The second half of time_to_tm: year, month and day of a day number. */
  method SetDate(temp: nat, tm: Tm)
    modifies tm`tmYear, tm`tmYday, tm`tmMday, tm`tmMon
    ensures Valid(tm.DateOf()) && tm.DateOf() == DateAt(temp) && tm.tmYday == DayOfYear(tm.DateOf())
  {
    hide DaysTo, MonthBegin, MonthLength, Valid, DayOfYear, DateAt;
    var fourYearCount := temp / FOUR_YEARS;
    var leave := temp % FOUR_YEARS;
    var i, left := FindYear(leave);
    tm.tmYear := fourYearCount * 4 + i + 70;
    tm.tmYday := left;
    var j, day := FindMonth(left, i == 2);
    tm.tmMday := day + 1;
    tm.tmMon := j;
    if tm.tmMon >= 12 {
      tm.tmYear := tm.tmYear + 1;
      tm.tmMon := tm.tmMon - 12;
    }
    Assemble(fourYearCount, i, left, j, day);
    DateIs(tm.DateOf());
  }

  /** tm_to_time. `fallback` is what mktime would say; it is asked exactly for a day beyond the end of the month. */
  method TmToTime(tm: Tm, fallback: int) returns (time: int)
    requires 0 <= tm.tmMon < 12
    modifies tm`tmYday, tm`tmWday
    ensures var d := tm.DateOf();
      time == if d.day > MonthLength(d.month, Leap(d.year)) then fallback
              else DaysTo(d) * 86400 + (tm.tmHour - 8) * 3600 + tm.tmMin * 60 + tm.tmSec
    ensures tm.tmYday == MonthBegin(tm.tmMon, Leap(tm.tmYear)) + tm.tmMday - 1
    ensures tm.tmWday == Rem(DaysTo(tm.DateOf()) + 4, 7)
  {
    var monthlen := [31, 28, 31, 30, 31, 30, 31, 31, 30, 31, 30, 31];
    var monthbegin := [0, 31, 59, 90, 120, 151, 181, 212, 243, 273, 304, 334];
    var leap := Leap(tm.tmYear);
    MonthStep(tm.tmMon, leap);
    SameLeap(tm.tmYear);
    MonthTable(tm.tmMon, leap);
    var t := monthbegin[tm.tmMon] + tm.tmMday - 1 + if leap && tm.tmMon > 1 then 1 else 0;
    tm.tmYday := t;
    t := t + 365 * (tm.tmYear - 70) + Quot(tm.tmYear - 69, 4);
    tm.tmWday := Rem(t + 4, 7);
    t := t * 86400 + (tm.tmHour - 8) * 3600 + tm.tmMin * 60 + tm.tmSec;
    if tm.tmMday > monthlen[tm.tmMon] + if leap && tm.tmMon == 1 then 1 else 0 {
      time := fallback;
    } else {
      time := t;
    }
  }

  /** The way back. */
  function TimeOf(time: nat): int {
    DayOf(time) * 86400 + ((time % U32 / 3600 + 8) % 24 - 8) * 3600 + time % U32 / 60 % 60 * 60 + time % 60
  }

  /** time_to_tm counts 1 January as the last day but one more of the year before, except after every fourth year. */
  predicate Carried(d: Date) {
    d.month == 0 && d.day == 1 && d.year % 4 != 2
  }

  lemma YdayIs(d: Date)
    requires Valid(d)
    ensures DayOfYear(d) == MonthBegin(d.month, Leap(d.year)) + d.day - 1 <==> !Carried(d)
  {
  }

  /** tm_to_time undoes time_to_tm if and only if the time fits in 32 bits; the two always agree on the weekday, and on
      tm_yday if and only if the date was not carried over from the year before. */
  method RoundTrip(time: nat, fallback: int) returns (back: int, sameWday: bool, sameYday: bool)
    ensures back == TimeOf(time) && (back == time <==> time < U32)
    ensures sameWday && (sameYday <==> !Carried(DateAt(DayOf(time))))
  {
    hide DaysTo, Valid, DayOfYear, DayOf, DateAt, MonthBegin, MonthLength, Leap, Carried;
    var tm := new Tm();
    TimeToTm(time, tm);
    ValidMonth(tm.DateOf());
    YdayIs(tm.DateOf());
    SameLeap(tm.tmYear);
    CountingIs(DayOf(time));
    var wday, yday := tm.tmWday, tm.tmYday;
    back := TmToTime(tm, fallback);
    sameWday, sameYday := wday == tm.tmWday, yday == tm.tmYday;
    BackIs(time);
  }

  lemma SameLeap(year: int)
    ensures Leap(year) == Leap(year + 1900)
  {
  }

  lemma BackIs(time: nat)
    ensures TimeOf(time) == time <==> time < U32
  {
    var u := time % U32;
    var h := u / 3600 + 8;
    assert h == h / 24 * 24 + h % 24;
    assert u == u / 3600 * 3600 + u % 3600;
    assert u % 3600 == u / 60 % 60 * 60 + u % 60;
    assert TimeOf(time) == u - u % 60 + time % 60;
    if time >= U32 {
      assert time >= U32 + u;
    }
  }

  /** The date number of getNowDay; the month counts from 0. */
  function DateNumber(d: Date): int {
    d.year * 10000 + d.month * 100 + d.day
  }

  /** The decimal digits of the number are the year, the month and the day of the date. */
  lemma DateNumberDigits(d: Date)
    requires Valid(d)
    ensures DateNumber(d) / 10000 == d.year && DateNumber(d) / 100 % 100 == d.month && DateNumber(d) % 100 == d.day
  {
    assert DateNumber(d) / 100 == 100 * d.year + d.month;
  }

  /** For any two times the date numbers are ordered as the days are. */
  lemma DateNumberOrder(time: nat, time': nat)
    ensures DateNumber(DateAt(DayOf(time))) <= DateNumber(DateAt(DayOf(time'))) <==> DayOf(time) <= DayOf(time')
  {
    hide DateAt, DayOf, Valid, Before, DaysTo, DateNumber;
    CountingIs(DayOf(time));
    CountingIs(DayOf(time'));
    NumberOrder(DateAt(DayOf(time)), DateAt(DayOf(time')));
    NumberOrder(DateAt(DayOf(time')), DateAt(DayOf(time)));
  }

  /** As long as the time fits in 32 bits the date number never falls. */
  lemma DateNumberGrows(time: nat, time': nat)
    requires time <= time' < U32
    ensures DateNumber(DateAt(DayOf(time))) <= DateNumber(DateAt(DayOf(time')))
  {
    DayGrows(time, time');
    hide DateAt, DayOf, DateNumber;
    DateNumberOrder(time, time');
  }

  lemma DivGrows(a: nat, b: nat, n: int)
    requires a <= b && n > 0
    ensures a / n <= b / n
  {
    var p, q := a / n, b / n;
    assert a == n * p + a % n && b == n * q + b % n;
    if p >= q + 1 {
      MulGrows(n, q + 1, p);
    }
  }

  lemma MulGrows(n: int, a: int, b: int)
    requires n >= 0 && a <= b
    ensures n * a <= n * b
  {
  }

  lemma DayGrows(time: nat, time': nat)
    requires time <= time' < U32
    ensures DayOf(time) <= DayOf(time')
  {
    DivGrows(time, time', 3600);
    DivGrows(time / 3600 + 8, time' / 3600 + 8, 24);
  }

  lemma NumberOrder(a: Date, b: Date)
    requires Valid(a) && Valid(b)
    ensures Before(a, b) ==> DateNumber(a) < DateNumber(b) && DaysTo(a) < DaysTo(b)
    ensures a == b || Before(a, b) || Before(b, a)
  {
    if Before(a, b) {
      DaysGrow(a, b);
    }
  }

  /** It does, in one second, whenever the 32 bits wrap round. */
  lemma DateNumberFalls(time: nat)
    requires (time + 1) % U32 == 0
    ensures DateNumber(DateAt(DayOf(time + 1))) < DateNumber(DateAt(DayOf(time)))
  {
    assert DayOf(time + 1) == 0 && time % U32 == U32 - 1;
    assert DayOf(time) > 0;
    hide DateAt, DayOf, DateNumber;
    DateNumberOrder(time, time + 1);
  }
}
