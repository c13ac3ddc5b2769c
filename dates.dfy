/**
 * Calendar days as the pages use them through dayjs: a day of the
 * proleptic Gregorian calendar, its weekday, the day after it, and its
 * "YYYY-MM-DD" key. Times of day and time zones play no part.
 */
module Dates {
  import opened Numerals

  datatype Date = Date(year: nat, month: nat, day: nat)

  predicate IsLeapYear(y: nat) {
    (y % 4 == 0 && y % 100 != 0) || y % 400 == 0
  }

  function DaysInMonth(y: nat, m: nat): (n: nat)
    requires 1 <= m <= 12
    ensures 28 <= n <= 31
    ensures n == 29 <==> m == 2 && IsLeapYear(y)
  {
    if m == 2 then (if IsLeapYear(y) then 29 else 28)
    else if m == 4 || m == 6 || m == 9 || m == 11 then 30
    else 31
  }

  predicate Valid(d: Date) {
    1 <= d.month <= 12 && 1 <= d.day <= DaysInMonth(d.year, d.month)
  }

  /** Chronological order at day granularity (dayjs `isBefore`). */
  predicate Before(a: Date, b: Date) {
    a.year < b.year
    || (a.year == b.year && (a.month < b.month || (a.month == b.month && a.day < b.day)))
  }

  /** `day.add(1, 'day')`. */
  function NextDay(d: Date): (r: Date)
    requires Valid(d)
    ensures Valid(r) && Before(d, r)
  {
    if d.day < DaysInMonth(d.year, d.month) then Date(d.year, d.month, d.day + 1)
    else if d.month < 12 then Date(d.year, d.month + 1, 1)
    else Date(d.year + 1, 1, 1)
  }

  /** No valid day lies strictly between a day and the next one. */
  lemma NextDayIsSuccessor(d: Date, e: Date)
    requires Valid(d) && Valid(e) && Before(d, e)
    ensures NextDay(d) == e || Before(NextDay(d), e)
  {
  }

  function YearLength(y: nat): (n: nat)
  {
    if IsLeapYear(y) then 366 else 365
  }

  /** A year's length is the sum of its months' lengths. */
  lemma YearLengthIsMonthSum(y: nat)
    ensures YearLength(y) == DaysBeforeMonth(y, 13)
  {
    var feb := DaysInMonth(y, 2);
    assert DaysBeforeMonth(y, 2) == 31;
    assert DaysBeforeMonth(y, 3) == 31 + feb;
    assert DaysBeforeMonth(y, 4) == 31 + feb + 31;
    assert DaysBeforeMonth(y, 5) == 31 + feb + 31 + 30;
    assert DaysBeforeMonth(y, 6) == 31 + feb + 31 + 30 + 31;
    assert DaysBeforeMonth(y, 7) == 31 + feb + 31 + 30 + 31 + 30;
    assert DaysBeforeMonth(y, 8) == 31 + feb + 31 + 30 + 31 + 30 + 31;
    assert DaysBeforeMonth(y, 9) == 31 + feb + 31 + 30 + 31 + 30 + 31 + 31;
    assert DaysBeforeMonth(y, 10) == 31 + feb + 31 + 30 + 31 + 30 + 31 + 31 + 30;
    assert DaysBeforeMonth(y, 11) == 31 + feb + 31 + 30 + 31 + 30 + 31 + 31 + 30 + 31;
    assert DaysBeforeMonth(y, 12) == 31 + feb + 31 + 30 + 31 + 30 + 31 + 31 + 30 + 31 + 30;
    assert DaysBeforeMonth(y, 13) == 31 + feb + 31 + 30 + 31 + 30 + 31 + 31 + 30 + 31 + 30 + 31;
  }

  /** Days in the months of year `y` before month `m`. */
  function DaysBeforeMonth(y: nat, m: nat): nat
    requires 1 <= m <= 13
  {
    if m == 1 then 0 else DaysBeforeMonth(y, m - 1) + DaysInMonth(y, m - 1)
  }

  /** Days from 0000-01-01 to the first day of year `y`. */
  function DaysBeforeYear(y: nat): nat
  {
    if y == 0 then 0 else DaysBeforeYear(y - 1) + YearLength(y - 1)
  }

  /** Days from 0000-01-01 (day 0) to `d`. */
  function DayNumber(d: Date): nat
    requires Valid(d)
  {
    DaysBeforeYear(d.year) + DaysBeforeMonth(d.year, d.month) + d.day - 1
  }

  /**
   * `day.day()`: 0 is Sunday, 6 is Saturday. 0000-01-01 of the proleptic
   * Gregorian calendar was a Saturday.
   */
  function Weekday(d: Date): (w: nat)
    requires Valid(d)
    ensures w < 7
  {
    (DayNumber(d) + 6) % 7
  }

  /**
   * The Gregorian count of days before year `y`: 365 a year, plus one for
   * each earlier year divisible by 4, less one for each divisible by 100,
   * plus one for each divisible by 400 (year 0 being a leap year).
   */
  lemma {:induction false} DaysBeforeYearClosedForm(y: nat)
    ensures DaysBeforeYear(y) == 365 * y + (y + 3) / 4 - (y + 99) / 100 + (y + 399) / 400
  {
    if y > 0 {
      DaysBeforeYearClosedForm(y - 1);
      ClosedFormStep(y);
    }
  }

  /** The closed form grows by the length of year `y - 1` from `y - 1` to `y`. */
  lemma ClosedFormStep(y: nat)
    requires y > 0
    ensures 365 * y + (y + 3) / 4 - (y + 99) / 100 + (y + 399) / 400
         == 365 * (y - 1) + (y + 2) / 4 - (y + 98) / 100 + (y + 398) / 400 + YearLength(y - 1)
  {
    MultiplesOfFourStep(y);
    MultiplesOfHundredStep(y);
    MultiplesOfFourHundredStep(y);
  }

  /** From `y - 1` to `y`, the count of multiples of 4 below `y` grows by one exactly at a multiple. */
  lemma MultiplesOfFourStep(y: nat)
    requires y > 0
    ensures (y + 3) / 4 - (y + 2) / 4 == if (y - 1) % 4 == 0 then 1 else 0
  {
    var x := y - 1;
    var q, r := x / 4, x % 4;
    assert x == 4 * q + r;
    assert (y + 3) / 4 == q + 1;
    if r == 0 {
      assert (y + 2) / 4 == q;
    } else {
      assert (y + 2) / 4 == q + 1;
    }
  }

  /** The same for multiples of 100, each of which is a multiple of 4. */
  lemma MultiplesOfHundredStep(y: nat)
    requires y > 0
    ensures (y + 99) / 100 - (y + 98) / 100 == if (y - 1) % 100 == 0 then 1 else 0
    ensures (y - 1) % 100 == 0 ==> (y - 1) % 4 == 0
  {
    var x := y - 1;
    var q, r := x / 100, x % 100;
    assert x == 100 * q + r;
    assert (y + 99) / 100 == q + 1;
    if r == 0 {
      assert (y + 98) / 100 == q;
      assert x == 4 * (25 * q);
    } else {
      assert (y + 98) / 100 == q + 1;
    }
  }

  /** The same for multiples of 400, each of which is a multiple of 100. */
  lemma MultiplesOfFourHundredStep(y: nat)
    requires y > 0
    ensures (y + 399) / 400 - (y + 398) / 400 == if (y - 1) % 400 == 0 then 1 else 0
    ensures (y - 1) % 400 == 0 ==> (y - 1) % 100 == 0
  {
    var x := y - 1;
    var q, r := x / 400, x % 400;
    assert x == 400 * q + r;
    assert (y + 399) / 400 == q + 1;
    if r == 0 {
      assert (y + 398) / 400 == q;
      assert x == 100 * (4 * q);
    } else {
      assert (y + 398) / 400 == q + 1;
    }
  }

  /** Sunday is weekday 0: 2024-01-07 was a Sunday. */
  lemma SundayAnchor()
    ensures Valid(Date(2024, 1, 7)) && Weekday(Date(2024, 1, 7)) == 0
  {
    DaysBeforeYearClosedForm(2024);
    assert DayNumber(Date(2024, 1, 7)) == 739257;
  }

  lemma NextDayNumber(d: Date)
    requires Valid(d)
    ensures DayNumber(NextDay(d)) == DayNumber(d) + 1
  {
    var n := NextDay(d);
    if d.day < DaysInMonth(d.year, d.month) {
      assert n == Date(d.year, d.month, d.day + 1);
    } else if d.month < 12 {
      assert n == Date(d.year, d.month + 1, 1);
      assert DaysBeforeMonth(d.year, d.month + 1) == DaysBeforeMonth(d.year, d.month) + d.day;
    } else {
      assert n == Date(d.year + 1, 1, 1);
      YearLengthIsMonthSum(d.year);
      assert DaysBeforeMonth(d.year, 13) == DaysBeforeMonth(d.year, 12) + d.day;
      assert DaysBeforeYear(d.year + 1) == DaysBeforeYear(d.year) + YearLength(d.year);
    }
  }

  /** The weekday advances by one, Saturday to Sunday, from a day to the next. */
  lemma NextDayWeekday(d: Date)
    requires Valid(d)
    ensures Weekday(NextDay(d)) == (Weekday(d) + 1) % 7
  {
    NextDayNumber(d);
    var k := DayNumber(d) + 6;
    assert Weekday(NextDay(d)) == (k + 1) % 7;
    assert Weekday(d) == k % 7;
    SuccessorModSeven(k);
  }

  lemma SuccessorModSeven(k: nat)
    ensures (k + 1) % 7 == (k % 7 + 1) % 7
  {
    var q, r := k / 7, k % 7;
    assert k == 7 * q + r;
    assert k + 1 == 7 * q + (r + 1);
    if r == 6 {
      assert k + 1 == 7 * (q + 1);
    }
  }

  /** The day `n` days after `d`: `d.add(n, 'day')`. */
  function DaysAfter(d: Date, n: nat): (r: Date)
    requires Valid(d)
    ensures Valid(r)
  {
    if n == 0 then d else NextDay(DaysAfter(d, n - 1))
  }

  /** `n` days on, the weekday has advanced by `n`, modulo 7. */
  lemma {:induction false} DaysAfterWeekday(d: Date, n: nat)
    requires Valid(d)
    ensures Weekday(DaysAfter(d, n)) == (Weekday(d) + n) % 7
  {
    if n > 0 {
      DaysAfterWeekday(d, n - 1);
      NextDayWeekday(DaysAfter(d, n - 1));
      SuccessorModSeven(Weekday(d) + n - 1);
    }
  }

  /**
   * In any run of seven consecutive days each weekday occurs exactly once:
   * weekday `w` falls on the `i`-th day of the run for exactly one `i`.
   */
  lemma WeekdayOnceInSevenDays(d: Date, i: nat, w: nat)
    requires Valid(d) && i < 7 && w < 7
    ensures Weekday(DaysAfter(d, i)) == w <==> i == (w + 7 - Weekday(d)) % 7
  {
    DaysAfterWeekday(d, i);
    ShiftModSeven(Weekday(d), i, w);
  }

  /** Adding `i` below 7 to weekday `a` reaches `w` for exactly one `i`. */
  lemma ShiftModSeven(a: nat, i: nat, w: nat)
    requires a < 7 && i < 7 && w < 7
    ensures (a + i) % 7 == w <==> i == (w + 7 - a) % 7
  {
    assert (a + i) % 7 == if a + i < 7 then a + i else a + i - 7;
    assert (w + 7 - a) % 7 == if w >= a then w - a else w + 7 - a;
  }

  /** `day.format('YYYY-MM-DD')`. */
  function Format(d: Date): string
  {
    PadStart(Decimal(d.year), 4) + "-" + PadStart(Decimal(d.month), 2) + "-" + PadStart(Decimal(d.day), 2)
  }

  /** The days of month `m` of year `y`, first to last. */
  function MonthDays(y: nat, m: nat): (days: seq<Date>)
    requires 1 <= m <= 12
    ensures |days| == DaysInMonth(y, m)
    ensures forall i | 0 <= i < |days| :: days[i] == Date(y, m, i + 1) && Valid(days[i])
  {
    seq(DaysInMonth(y, m), i requires 0 <= i => Date(y, m, i + 1))
  }

  /** Every day of the month is listed exactly once, and the list is in chronological order. */
  lemma MonthDaysExactlyOnce(y: nat, m: nat)
    requires 1 <= m <= 12
    ensures forall d :: Valid(d) && d.year == y && d.month == m <==> d in MonthDays(y, m)
    ensures forall i, j | 0 <= i < j < |MonthDays(y, m)| :: Before(MonthDays(y, m)[i], MonthDays(y, m)[j])
  {
    var days := MonthDays(y, m);
    forall d | Valid(d) && d.year == y && d.month == m
      ensures d in days
    {
      assert days[d.day - 1] == d;
    }
  }

  /**
   * The walk over a month both the schedule page (`daysInMonth`) and the
   * batch assignment page perform: from the first of the month, take the
   * day and advance by one day while the day is not after the month's last
   * day (`isBefore(end) || isSame(end, 'day')`).
   */
  method DaysOfMonth(year: nat, month: nat) returns (days: seq<Date>)
    requires 1 <= month <= 12
    ensures days == MonthDays(year, month)
  {
    var last := Date(year, month, DaysInMonth(year, month));
    days := [];
    var day := Date(year, month, 1);
    while Before(day, last) || day == last
      invariant Valid(day)
      invariant (day.year == year && day.month == month && 1 <= day.day <= last.day) || day == NextDay(last)
      invariant |days| == (if day == NextDay(last) then last.day else day.day - 1)
      invariant forall i | 0 <= i < |days| :: days[i] == Date(year, month, i + 1)
      decreases DayNumber(NextDay(last)) - DayNumber(day)
    {
      days := days + [day];
      NextDayNumber(day);
      NextDayNumber(last);
      day := NextDay(day);
    }
  }
}
