/**
 * Integer proleptic Gregorian calendar arithmetic, standing in for the
 * JavaScript `Date` operations both date pickers rely on
 * (`new Date(y, m + 1, 0).getDate()`, `new Date(y, m, 1).getDay()`,
 * `new Date(y, m - 1, 1)` and `new Date(y, m + 1, 1)`), and for the
 * truncating remainder operator `%` of JavaScript.
 */
module Calendar {

  /** An optional value; used for an absent `selectedDate` property. */
  datatype Option<T> = None | Some(value: T)

  /** A calendar date. `month` is 0-based (0 = January), as `getMonth()` returns it. */
  datatype Date = Date(year: int, month: int, day: int)

  /** A month of a given year: what stepping by months produces. */
  datatype YearMonth = YearMonth(year: int, month: int)

  /** The names of the weekdays in `getDay()` order (0 = Sunday). */
  const DAY_NAMES: seq<string> := ["Sun", "Mon", "Tue", "Wed", "Thu", "Fri", "Sat"]

  predicate ValidMonth(m: int) {
    0 <= m < 12
  }

  predicate IsLeapYear(y: int) {
    y % 4 == 0 && (y % 100 != 0 || y % 400 == 0)
  }

  /** The number of days of month `m` of year `y` (`getDaysInMonth`). */
  function DaysInMonth(y: int, m: int): (n: int)
    requires ValidMonth(m)
    ensures 28 <= n <= 31
    ensures n == 29 <==> m == 1 && IsLeapYear(y)
    ensures n == 28 <==> m == 1 && !IsLeapYear(y)
  {
    if m == 1 then (if IsLeapYear(y) then 29 else 28)
    else if m == 3 || m == 5 || m == 8 || m == 10 then 30
    else 31
  }

  /** A date that exists in the calendar. */
  predicate ValidDate(d: Date) {
    ValidMonth(d.month) && 1 <= d.day <= DaysInMonth(d.year, d.month)
  }

  /** The first day of a month, as `new Date(y, m, 1)` builds it. */
  function FirstOf(ym: YearMonth): (d: Date)
    requires ValidMonth(ym.month)
    ensures ValidDate(d) && d.day == 1
  {
    Date(ym.year, ym.month, 1)
  }

  /** The weekday formula before its final remainder, for the 1st of a month. */
  function FirstDaySum(y: int, m: int): int
    requires ValidMonth(m)
  {
    YearTerm(if m < 2 then y - 1 else y) + MONTH_SHIFT[m] + 1
  }

  /**
   * The day of the week of a date, 0 = Sunday .. 6 = Saturday, as `getDay()`
   * numbers it (Sakamoto's method; `/` on int rounds down, which keeps the
   * formula right for years before 1).
   */
  function Weekday(y: int, m: int, d: int): (w: int)
    requires ValidMonth(m)
    ensures 0 <= w < 7
  {
    (FirstDaySum(y, m) + d - 1) % 7
  }

  /** Sakamoto's per-month offsets, for a year that starts in March. */
  const MONTH_SHIFT: seq<int> := [0, 3, 2, 5, 0, 3, 5, 1, 4, 6, 2, 4]

  /** The count of days that Sakamoto's formula attributes to the years up to `yy`. */
  function YearTerm(yy: int): int {
    yy + yy / 4 - yy / 100 + yy / 400
  }

  /** Adding to a number and adding to its remainder leave the same remainder. */
  lemma ModAdd(x: int, k: int)
    ensures (x % 7 + k) % 7 == (x + k) % 7
  {
    var q := x / 7;
    assert x == 7 * q + x % 7;
    assert x + k == 7 * q + (x % 7 + k);
  }

  /** Two sums that differ by whole weeks leave the same remainder. */
  lemma ModShift(a: int, d: int, b: int, k: int)
    requires a + d == b + 7 * k
    ensures b % 7 == (a % 7 + d) % 7
  {
    ModAdd(a, d);
    ModAdd(b, 7 * k);
  }

  /** The weekday of the 1st of a month (`getFirstDayOfMonth`). */
  function FirstDayOfMonth(y: int, m: int): (w: int)
    requires ValidMonth(m)
    ensures 0 <= w < 7
  {
    Weekday(y, m, 1)
  }

  /** Consecutive days of a month fall on consecutive weekdays. */
  lemma WeekdayOfDay(y: int, m: int, d: int)
    requires ValidMonth(m)
    ensures Weekday(y, m, d) == (FirstDayOfMonth(y, m) + d - 1) % 7
  {
    ModAdd(FirstDaySum(y, m), d - 1);
  }

  /**
   * `new Date(y, m, day)` for a day number some month can have: a day past
   * the end of month `m` rolls over into the next month, and the date
   * reached falls on the weekday found by counting on from the 1st.
   */
  function DateOfDay(y: int, m: int, day: int): (d: Date)
    requires ValidMonth(m) && 1 <= day <= 31
    ensures ValidDate(d)
    ensures day <= DaysInMonth(y, m) ==> d == Date(y, m, day)
    ensures day > DaysInMonth(y, m) ==>
              YearMonth(d.year, d.month) == MonthAfter(y, m) && d.day == day - DaysInMonth(y, m)
    ensures Weekday(d.year, d.month, d.day) == (FirstDayOfMonth(y, m) + day - 1) % 7
  {
    WeekdayOfDay(y, m, day);
    if day <= DaysInMonth(y, m) then Date(y, m, day)
    else
      var n := MonthAfter(y, m);
      FirstDayOfNextMonth(y, m);
      WeekdayOfDay(n.year, n.month, day - DaysInMonth(y, m));
      ModAdd(FirstDayOfMonth(y, m) + DaysInMonth(y, m), day - DaysInMonth(y, m) - 1);
      Date(n.year, n.month, day - DaysInMonth(y, m))
  }

  /** 1 January 1970, the origin of JavaScript time, was a Thursday. */
  lemma EpochIsThursday()
    ensures FirstDayOfMonth(1970, 0) == 4 && DAY_NAMES[FirstDayOfMonth(1970, 0)] == "Thu"
  {
  }

  /** The position of a month on the line of all months. */
  function MonthIndex(ym: YearMonth): int {
    12 * ym.year + ym.month
  }

  /** The month before month `m` of year `y`, December of the previous year for January. */
  function MonthBefore(y: int, m: int): (r: YearMonth)
    requires ValidMonth(m)
    ensures ValidMonth(r.month)
    ensures MonthIndex(r) == MonthIndex(YearMonth(y, m)) - 1
  {
    if m == 0 then YearMonth(y - 1, 11) else YearMonth(y, m - 1)
  }

  /** The month after month `m` of year `y`, January of the next year for December. */
  function MonthAfter(y: int, m: int): (r: YearMonth)
    requires ValidMonth(m)
    ensures ValidMonth(r.month)
    ensures MonthIndex(r) == MonthIndex(YearMonth(y, m)) + 1
  {
    if m == 11 then YearMonth(y + 1, 0) else YearMonth(y, m + 1)
  }

  /** A valid month is determined by its index. */
  lemma MonthIndexInjective(a: YearMonth, b: YearMonth)
    requires ValidMonth(a.month) && ValidMonth(b.month)
    requires MonthIndex(a) == MonthIndex(b)
    ensures a == b
  {
  }

  /** Stepping back a month and forward again, or the other way round, is the identity. */
  lemma MonthStepsCancel(y: int, m: int)
    requires ValidMonth(m)
    ensures var b := MonthBefore(y, m); MonthAfter(b.year, b.month) == YearMonth(y, m)
    ensures var a := MonthAfter(y, m); MonthBefore(a.year, a.month) == YearMonth(y, m)
  {
    var b := MonthBefore(y, m);
    MonthIndexInjective(MonthAfter(b.year, b.month), YearMonth(y, m));
    var a := MonthAfter(y, m);
    MonthIndexInjective(MonthBefore(a.year, a.month), YearMonth(y, m));
  }

  /** Year `y` adds one day of weekday shift, two when it is a leap year. */
  lemma YearTermStep(y: int)
    ensures YearTerm(y) == YearTerm(y - 1) + 1 + (if IsLeapYear(y) then 1 else 0)
  {
    assert y / 4 == (y - 1) / 4 + (if y % 4 == 0 then 1 else 0);
    assert y / 100 == (y - 1) / 100 + (if y % 100 == 0 then 1 else 0);
    assert y / 400 == (y - 1) / 400 + (if y % 400 == 0 then 1 else 0);
    if y % 400 == 0 {
      assert y == 100 * (4 * (y / 400));
      assert y == 4 * (100 * (y / 400));
    } else if y % 100 == 0 {
      assert y == 4 * (25 * (y / 100));
    }
  }

  /** The sums for the 1st of a month and of the next differ by the month's length, up to whole weeks. */
  lemma FirstDaySumStep(y: int, m: int)
    requires ValidMonth(m)
    ensures (var n := MonthAfter(y, m);
             FirstDaySum(y, m) + DaysInMonth(y, m)
             == FirstDaySum(n.year, n.month) + 7 * (if m == 3 || m == 6 || m == 9 || m == 11 then 5 else 4))
  {
    if m == 1 {
      YearTermStep(y);
    }
  }

  /**
   * The 1st of the next month falls `DaysInMonth` weekdays after the 1st of
   * this one: the weekday formula and the month lengths agree.
   */
  lemma FirstDayOfNextMonth(y: int, m: int)
    requires ValidMonth(m)
    ensures var n := MonthAfter(y, m);
            FirstDayOfMonth(n.year, n.month) == (FirstDayOfMonth(y, m) + DaysInMonth(y, m)) % 7
  {
    var n := MonthAfter(y, m);
    var weeks := if m == 3 || m == 6 || m == 9 || m == 11 then 5 else 4;
    FirstDaySumStep(y, m);
    ModShift(FirstDaySum(y, m), DaysInMonth(y, m), FirstDaySum(n.year, n.month), weeks);
  }

  /** The number of days of the months of year `y` before month `m`. */
  function DaysBeforeMonth(y: int, m: int): int
    requires 0 <= m <= 12
  {
    if m == 0 then 0 else DaysBeforeMonth(y, m - 1) + DaysInMonth(y, m - 1)
  }

  /** The usual table of days before each month, one more after February in a leap year. */
  lemma {:induction false} DaysBeforeMonthTable(y: int, m: int)
    requires 0 <= m <= 12
    ensures DaysBeforeMonth(y, m)
         == [0, 31, 59, 90, 120, 151, 181, 212, 243, 273, 304, 334, 365][m]
            + (if m >= 2 && IsLeapYear(y) then 1 else 0)
  {
    if m > 0 {
      DaysBeforeMonthTable(y, m - 1);
    }
  }

  /** A year has 366 days when it is a leap year and 365 otherwise. */
  lemma YearLength(y: int)
    ensures DaysBeforeMonth(y, 12) == if IsLeapYear(y) then 366 else 365
  {
    DaysBeforeMonthTable(y, 12);
  }

  /** The 1st of month `m` falls `DaysBeforeMonth` weekdays after 1 January. */
  lemma {:induction false} FirstDayFromJanuary(y: int, m: int)
    requires ValidMonth(m)
    ensures FirstDayOfMonth(y, m) == (FirstDayOfMonth(y, 0) + DaysBeforeMonth(y, m)) % 7
  {
    if m > 0 {
      FirstDayFromJanuary(y, m - 1);
      FirstDayOfNextMonth(y, m - 1);
      ModAdd(FirstDayOfMonth(y, 0) + DaysBeforeMonth(y, m - 1), DaysInMonth(y, m - 1));
    }
  }

  /** 1 January of the next year falls a year's length of weekdays later. */
  lemma NewYearWeekday(y: int)
    ensures FirstDayOfMonth(y + 1, 0)
         == (FirstDayOfMonth(y, 0) + (if IsLeapYear(y) then 366 else 365)) % 7
  {
    FirstDayFromJanuary(y, 11);
    FirstDayOfNextMonth(y, 11);
    YearLength(y);
    ModAdd(FirstDayOfMonth(y, 0) + DaysBeforeMonth(y, 11), DaysInMonth(y, 11));
  }

  /**
   * JavaScript's `a % b` for a positive divisor: the remainder of the
   * division rounded toward zero, which takes the sign of `a`.
   */
  function JsRem(a: int, b: int): (r: int)
    requires b > 0
    ensures a == b * TruncatedQuotient(a, b) + r
    ensures a >= 0 ==> 0 <= r < b
    ensures a < 0 ==> -b < r <= 0
  {
    if a >= 0 then a % b else -((-a) % b)
  }

  /** The quotient of `a` by `b` rounded toward zero. */
  function TruncatedQuotient(a: int, b: int): int
    requires b > 0
  {
    if a >= 0 then a / b else -((-a) / b)
  }
}
