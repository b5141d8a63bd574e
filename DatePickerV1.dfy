/**
 * The first date picker (`DatePickerV1`): a day view and a month view with
 * no animation, where choosing a month also chooses its 1st as the date.
 */
module DatePickerV1 {
  import opened Calendar

  /** The header of the day grid, Sunday first (`weekDays`). */
  const WEEK_DAYS: seq<string> := ["Sun", "Mon", "Tue", "Wed", "Thu", "Fri", "Sat"]

  /** `viewMode`: `'day'` or `'month'`. */
  datatype ViewMode = DayView | MonthView

  /** A cell of the day grid: an empty leading cell or a day of the month. */
  datatype DayCell = Empty | DayCell(day: int, selected: bool)

  predicate IsSelectedDay(c: DayCell) {
    c.DayCell? && c.selected
  }

  /**
   * The day grid of month `m` of year `y`: empty cells up to the
   * Sunday-first weekday of the 1st, then the days in order, each selected
   * when it is `current`; no trailing cells.
   */
  predicate IsDaysGrid(cells: seq<DayCell>, y: int, m: int, current: Date)
    requires ValidMonth(m)
  {
    var first := FirstDayOfMonth(y, m);
    && |cells| == first + DaysInMonth(y, m)
    && (forall i :: 0 <= i < first ==> cells[i] == Empty)
    && (forall i :: first <= i < |cells| ==>
          cells[i] == DayCell(i - first + 1, current == Date(y, m, i - first + 1)))
  }

  /** `generateCalendarDaysGrid`, for the view date `viewDate`. */
  method GenerateDaysGrid(viewDate: Date, current: Date) returns (days: seq<DayCell>)
    requires ValidMonth(viewDate.month)
    ensures IsDaysGrid(days, viewDate.year, viewDate.month, current)
  {
    var year := viewDate.year;
    var month := viewDate.month;
    var daysInMonth := DaysInMonth(year, month);
    var firstDayOfMonth := FirstDayOfMonth(year, month);
    days := [];
    var i := 0;
    while i < firstDayOfMonth
      invariant 0 <= i <= firstDayOfMonth && |days| == i
      invariant forall k :: 0 <= k < i ==> days[k] == Empty
    {
      days := days + [Empty];
      i := i + 1;
    }
    var day := 1;
    while day <= daysInMonth
      invariant 1 <= day <= daysInMonth + 1 && |days| == firstDayOfMonth + day - 1
      invariant forall k :: 0 <= k < firstDayOfMonth ==> days[k] == Empty
      invariant forall k :: firstDayOfMonth <= k < |days| ==>
                  days[k] == DayCell(k - firstDayOfMonth + 1, current == Date(year, month, k - firstDayOfMonth + 1))
    {
      var isSelected := current.day == day && current.month == month && current.year == year;
      days := days + [DayCell(day, isSelected)];
      day := day + 1;
    }
  }

  /** The day grid fills at most six rows of seven, and every day stands under its own weekday. */
  lemma DaysGridLayout(cells: seq<DayCell>, y: int, m: int, current: Date)
    requires ValidMonth(m) && IsDaysGrid(cells, y, m, current)
    ensures |cells| <= 42
    ensures forall i :: 0 <= i < |cells| && cells[i].DayCell? ==>
              WEEK_DAYS[i % 7] == DAY_NAMES[Weekday(y, m, cells[i].day)]
  {
    var first := FirstDayOfMonth(y, m);
    WeekdayOfDay(y, m, 1);
    forall i | 0 <= i < |cells| && cells[i].DayCell?
      ensures WEEK_DAYS[i % 7] == DAY_NAMES[Weekday(y, m, cells[i].day)]
    {
      var d := cells[i].day;
      assert i == first + d - 1;
      WeekdayOfDay(y, m, d);
    }
  }

  /**
   * At most one day is selected, and one is exactly when the current date
   * lies in the month shown.
   */
  lemma DaysGridSelection(cells: seq<DayCell>, y: int, m: int, current: Date)
    requires ValidMonth(m) && IsDaysGrid(cells, y, m, current)
    ensures forall i, j :: 0 <= i < |cells| && 0 <= j < |cells| && IsSelectedDay(cells[i]) && IsSelectedDay(cells[j]) ==> i == j
    ensures (exists i :: 0 <= i < |cells| && IsSelectedDay(cells[i]))
        <==> current.year == y && current.month == m && 1 <= current.day <= DaysInMonth(y, m)
  {
    if current.year == y && current.month == m && 1 <= current.day <= DaysInMonth(y, m) {
      assert IsSelectedDay(cells[FirstDayOfMonth(y, m) + current.day - 1]);
    }
  }

  /** A cell of the month grid. */
  datatype MonthCell = MonthCell(month: int, selected: bool)

  /**
   * The month grid: the twelve months in order, the month of `current`
   * selected when `current` lies in the viewed year.
   */
  predicate IsMonthsGrid(cells: seq<MonthCell>, viewYear: int, current: Date) {
    && |cells| == 12
    && forall i :: 0 <= i < 12 ==> cells[i] == MonthCell(i, current.month == i && current.year == viewYear)
  }

  /** `generateCalendarMonthsGrid` */
  method GenerateMonthsGrid(viewYear: int, current: Date) returns (months: seq<MonthCell>)
    ensures IsMonthsGrid(months, viewYear, current)
  {
    months := [];
    var month := 0;
    while month < 12
      invariant 0 <= month <= 12 && |months| == month
      invariant forall i :: 0 <= i < month ==> months[i] == MonthCell(i, current.month == i && current.year == viewYear)
    {
      var isSelected := current.month == month && current.year == viewYear;
      months := months + [MonthCell(month, isSelected)];
      month := month + 1;
    }
  }

  /**
   * The month grid selects the month of the current date when it lies in
   * the viewed year, and nothing otherwise.
   */
  lemma MonthsGridSelection(cells: seq<MonthCell>, viewYear: int, current: Date)
    requires ValidMonth(current.month) && IsMonthsGrid(cells, viewYear, current)
    ensures (exists i :: 0 <= i < 12 && cells[i].selected) <==> current.year == viewYear
    ensures forall i :: 0 <= i < 12 && cells[i].selected ==> i == current.month
  {
    if current.year == viewYear {
      assert cells[current.month].selected;
    }
  }

  /** The month view's 1st of the month before and after the view date (`prevMonth`, `nextMonth`). */
  function PrevMonthDate(viewDate: Date): (d: Date)
    requires ValidMonth(viewDate.month)
    ensures ValidDate(d) && d.day == 1
    ensures MonthIndex(YearMonth(d.year, d.month)) == MonthIndex(YearMonth(viewDate.year, viewDate.month)) - 1
  {
    FirstOf(MonthBefore(viewDate.year, viewDate.month))
  }

  function NextMonthDate(viewDate: Date): (d: Date)
    requires ValidMonth(viewDate.month)
    ensures ValidDate(d) && d.day == 1
    ensures MonthIndex(YearMonth(d.year, d.month)) == MonthIndex(YearMonth(viewDate.year, viewDate.month)) + 1
  {
    FirstOf(MonthAfter(viewDate.year, viewDate.month))
  }

  /** Going back a month and forward again, or the other way round, returns to the 1st of the month. */
  lemma MonthNavigationCancels(viewDate: Date)
    requires ValidMonth(viewDate.month)
    ensures NextMonthDate(PrevMonthDate(viewDate)) == Date(viewDate.year, viewDate.month, 1)
    ensures PrevMonthDate(NextMonthDate(viewDate)) == Date(viewDate.year, viewDate.month, 1)
  {
    MonthStepsCancel(viewDate.year, viewDate.month);
  }

  /** The first date picker's state; `emitted` records the dates passed to `onChange`, in order. */
  class PickerV1 {
    var isOpen: bool
    var currentDate: Date
    var viewDate: Date
    var viewMode: ViewMode
    var emitted: seq<Date>

    predicate Valid()
      reads this
    {
      ValidDate(currentDate) && ValidDate(viewDate)
      && forall i :: 0 <= i < |emitted| ==> ValidDate(emitted[i])
    }

    /** The initial state: closed, day view, both dates `selectedDate` or else today. */
    constructor (selectedDate: Option<Date>, now: Date)
      requires ValidDate(now)
      requires selectedDate.Some? ==> ValidDate(selectedDate.value)
      ensures Valid()
      ensures !isOpen && viewMode == DayView && emitted == []
      ensures currentDate == viewDate == (if selectedDate.Some? then selectedDate.value else now)
    {
      isOpen := false;
      currentDate := if selectedDate.Some? then selectedDate.value else now;
      viewDate := if selectedDate.Some? then selectedDate.value else now;
      viewMode := DayView;
      emitted := [];
    }

    /** `prevMonth`, the "‹" button in either view. */
    method PrevMonth()
      requires Valid() && isOpen
      modifies this
      ensures Valid()
      ensures viewDate == PrevMonthDate(old(viewDate))
      ensures isOpen == old(isOpen) && currentDate == old(currentDate)
      ensures viewMode == old(viewMode) && emitted == old(emitted)
    {
      viewDate := FirstOf(MonthBefore(viewDate.year, viewDate.month));
    }

    /** `nextMonth`, the "›" button in either view. */
    method NextMonth()
      requires Valid() && isOpen
      modifies this
      ensures Valid()
      ensures viewDate == NextMonthDate(old(viewDate))
      ensures isOpen == old(isOpen) && currentDate == old(currentDate)
      ensures viewMode == old(viewMode) && emitted == old(emitted)
    {
      viewDate := FirstOf(MonthAfter(viewDate.year, viewDate.month));
    }

    /** `prevYear`: the same month a year earlier. */
    method PrevYear()
      requires Valid()
      modifies this
      ensures Valid()
      ensures viewDate == Date(old(viewDate.year) - 1, old(viewDate.month), 1)
      ensures isOpen == old(isOpen) && currentDate == old(currentDate)
      ensures viewMode == old(viewMode) && emitted == old(emitted)
    {
      viewDate := Date(viewDate.year - 1, viewDate.month, 1);
    }

    /** `nextYear`: the same month a year later. */
    method NextYear()
      requires Valid()
      modifies this
      ensures Valid()
      ensures viewDate == Date(old(viewDate.year) + 1, old(viewDate.month), 1)
      ensures isOpen == old(isOpen) && currentDate == old(currentDate)
      ensures viewMode == old(viewMode) && emitted == old(emitted)
    {
      viewDate := Date(viewDate.year + 1, viewDate.month, 1);
    }

    /** `handleDateSelect`, the click on day `day`: select it, report it and close. */
    method HandleDateSelect(day: int)
      requires Valid() && 1 <= day <= DaysInMonth(viewDate.year, viewDate.month)
      requires isOpen && viewMode == DayView
      modifies this
      ensures Valid()
      ensures currentDate == Date(old(viewDate.year), old(viewDate.month), day)
      ensures emitted == old(emitted) + [currentDate]
      ensures !isOpen
      ensures viewDate == old(viewDate) && viewMode == old(viewMode)
    {
      var newDate := Date(viewDate.year, viewDate.month, day);
      currentDate := newDate;
      emitted := emitted + [newDate];
      isOpen := false;
    }

    /**
     * The click on cell `month` of the month grid: the 1st of that month of
     * the viewed year becomes both the selected and the viewed date, is
     * reported, and the day view comes back.
     */
    method ClickMonthCell(month: int)
      requires Valid() && ValidMonth(month)
      requires isOpen && viewMode == MonthView
      modifies this
      ensures Valid()
      ensures currentDate == viewDate == Date(old(viewDate.year), month, 1)
      ensures emitted == old(emitted) + [currentDate]
      ensures viewMode == DayView
      ensures isOpen == old(isOpen)
    {
      var newDate := Date(viewDate.year, month, 1);
      currentDate := newDate;
      emitted := emitted + [newDate];
      viewDate := newDate;
      viewMode := DayView;
    }

    /** `handleMonthClick`, the click on the month name in the day view: switch to the month view. */
    method HandleMonthClick()
      requires Valid() && isOpen && viewMode == DayView
      modifies this
      ensures Valid()
      ensures viewMode == MonthView
      ensures isOpen == old(isOpen) && currentDate == old(currentDate)
      ensures viewDate == old(viewDate) && emitted == old(emitted)
    {
      viewMode := MonthView;
    }

    /** `toggleCalendar`: open or close; the view mode is kept. */
    method ToggleCalendar()
      requires Valid()
      modifies this
      ensures Valid()
      ensures isOpen == !old(isOpen)
      ensures currentDate == old(currentDate) && viewDate == old(viewDate)
      ensures viewMode == old(viewMode) && emitted == old(emitted)
    {
      isOpen := !isOpen;
    }
  }
}
