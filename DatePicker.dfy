/**
 * The animated date picker (`DatePicker`): a view-state machine of three
 * steady modes and ten transition modes, driven by the navigator buttons,
 * the header title, clicks on grid cells, the open/close toggle and the end
 * of CSS animations, together with the day, month and year grids it renders.
 */
module DatePicker {
  import opened Calendar

  /** Columns and rows of the month and year grids (`COLUMNS`, `ROWS`). */
  const COLUMNS := 4
  const ROWS := 3

  /** The header of the day grid, Monday first (`WEEKDAYS`). */
  const WEEKDAYS: seq<string> := ["Mon", "Tue", "Wed", "Thu", "Fri", "Sat", "Sun"]

  /** `VIEW_MODES`: three steady modes and ten transitions between them. */
  datatype Mode =
    | DayPicker | MonthPicker | YearPicker
    | DayToMonth | DayToPrevMonth | DayToNextMonth
    | MonthToDay | MonthToYear | MonthToPrevYear | MonthToNextYear
    | YearToMonth | YearToPrevYears | YearToNextYears

  /** `viewState`: the zoom origin cell, the mode and the pending slide targets. */
  datatype ViewState = ViewState(gridNumber: int, mode: Mode, setMonth: Date, setYear: Date)

  predicate IsSteady(m: Mode) {
    m == DayPicker || m == MonthPicker || m == YearPicker
  }

  /** `isPrevTransition` */
  predicate IsPrevTransition(m: Mode) {
    m == DayToPrevMonth || m == MonthToPrevYear || m == YearToPrevYears
  }

  /** `isNextTransition` */
  predicate IsNextTransition(m: Mode) {
    m == DayToNextMonth || m == MonthToNextYear || m == YearToNextYears
  }

  /** `isSlideTransition` */
  predicate IsSlideTransition(m: Mode) {
    IsPrevTransition(m) || IsNextTransition(m)
  }

  /** No mode slides both ways, and exactly six modes slide. */
  lemma SlideModes(m: Mode)
    ensures !(IsPrevTransition(m) && IsNextTransition(m))
    ensures IsSlideTransition(m) <==>
      m in {DayToPrevMonth, DayToNextMonth, MonthToPrevYear, MonthToNextYear, YearToPrevYears, YearToNextYears}
  {
  }

  /** The calendar level a header title belongs to. */
  datatype Level = DayLevel | MonthLevel | YearLevel

  /**
   * The level whose title the main header shows in a mode; none while the
   * view zooms between two levels.
   */
  function HeaderLevel(m: Mode): Option<Level> {
    match m
    case DayPicker | DayToPrevMonth | DayToNextMonth => Some(DayLevel)
    case MonthPicker | MonthToPrevYear | MonthToNextYear => Some(MonthLevel)
    case YearPicker | YearToPrevYears | YearToNextYears => Some(YearLevel)
    case _ => None
  }

  /**
   * The steady mode a mode settles in when its animation ends: `X_TO_Y`
   * settles in `Y`, a slide in the steady mode of its own level, a steady
   * mode in itself.
   */
  function Settle(m: Mode): (r: Mode)
    ensures IsSteady(r)
    ensures IsSteady(m) ==> r == m
    ensures IsSlideTransition(m) ==> HeaderLevel(r) == HeaderLevel(m)
    ensures m == DayToMonth || m == YearToMonth ==> r == MonthPicker
    ensures m == MonthToDay ==> r == DayPicker
    ensures m == MonthToYear ==> r == YearPicker
  {
    match m
    case DayToMonth => MonthPicker
    case MonthToDay => DayPicker
    case MonthToYear => YearPicker
    case YearToMonth => MonthPicker
    case DayToPrevMonth | DayToNextMonth => DayPicker
    case MonthToPrevYear | MonthToNextYear => MonthPicker
    case YearToPrevYears | YearToNextYears => YearPicker
    case _ => m
  }

  /**
   * The date a slide moves the view to: the 1st of the previous or next
   * month, the same month one year or twelve years earlier or later.
   */
  function SlideTarget(m: Mode, viewDate: Date): (t: Date)
    requires IsSlideTransition(m) && ValidMonth(viewDate.month)
    ensures ValidDate(t) && t.day == 1
    ensures MonthIndex(YearMonth(t.year, t.month)) - MonthIndex(YearMonth(viewDate.year, viewDate.month))
         == (match m
             case DayToPrevMonth => -1
             case DayToNextMonth => 1
             case MonthToPrevYear => -12
             case MonthToNextYear => 12
             case YearToPrevYears => -144
             case _ => 144)
  {
    match m
    case DayToPrevMonth => FirstOf(MonthBefore(viewDate.year, viewDate.month))
    case DayToNextMonth => FirstOf(MonthAfter(viewDate.year, viewDate.month))
    case MonthToPrevYear => Date(viewDate.year - 1, viewDate.month, 1)
    case MonthToNextYear => Date(viewDate.year + 1, viewDate.month, 1)
    case YearToPrevYears => Date(viewDate.year - 12, viewDate.month, 1)
    case YearToNextYears => Date(viewDate.year + 12, viewDate.month, 1)
  }

  /** A slide back and the matching slide forward return to the 1st of the viewed month. */
  lemma SlidesCancel(prev: Mode, next: Mode, viewDate: Date)
    requires ValidMonth(viewDate.month)
    requires (prev, next) in {(DayToPrevMonth, DayToNextMonth), (MonthToPrevYear, MonthToNextYear),
                              (YearToPrevYears, YearToNextYears)}
    ensures SlideTarget(next, SlideTarget(prev, viewDate)) == Date(viewDate.year, viewDate.month, 1)
    ensures SlideTarget(prev, SlideTarget(next, viewDate)) == Date(viewDate.year, viewDate.month, 1)
  {
    var back := SlideTarget(prev, viewDate);
    var ahead := SlideTarget(next, viewDate);
    MonthIndexInjective(YearMonth(SlideTarget(next, back).year, SlideTarget(next, back).month),
                        YearMonth(viewDate.year, viewDate.month));
    MonthIndexInjective(YearMonth(SlideTarget(prev, ahead).year, SlideTarget(prev, ahead).month),
                        YearMonth(viewDate.year, viewDate.month));
  }

  /** The slide target recorded in the view state for a slide mode. */
  function PendingTarget(vs: ViewState): Date {
    if vs.mode == DayToPrevMonth || vs.mode == DayToNextMonth then vs.setMonth else vs.setYear
  }

  /** The view date once the current mode's animation has ended: a slide commits its target. */
  function SettledViewDate(vs: ViewState, viewDate: Date): Date {
    if IsSlideTransition(vs.mode) then PendingTarget(vs) else viewDate
  }

  // ===== Grid positions =====

  /** `getStartYear`: the first year of the twelve-year block shown for `year`. */
  function StartYear(year: int): (start: int)
    ensures start % 12 == 0
    ensures year >= 0 ==> start <= year <= start + 11
    ensures year < 0 ==> year <= start <= year + 11
    ensures start <= year <==> year >= 0 || year % 12 == 0
  {
    year - JsRem(year, 12)
  }

  /** Moving twelve years moves the block by twelve years, as long as both years are not negative. */
  lemma StartYearShift(year: int)
    requires year >= 0
    ensures StartYear(year + 12) == StartYear(year) + 12
    ensures year >= 12 ==> StartYear(year - 12) == StartYear(year) - 12
  {
    assert JsRem(year + 12, 12) == JsRem(year, 12);
    assert year >= 12 ==> JsRem(year - 12, 12) == JsRem(year, 12);
  }

  /** Below year 0 the blocks go wrong: years -11 to -1 fall into the block of years 0 to 11. */
  lemma NegativeYearsShareBlockZero(year: int)
    requires -11 <= year <= 11
    ensures StartYear(year) == 0
  {
  }

  /** `viewState?.gridNumber || 1`: a grid number of 0 counts as 1. */
  function EffectiveGridNumber(gridNumber: int): int {
    if gridNumber == 0 then 1 else gridNumber
  }

  /** The 0-based column of the zoom origin cell (`columnIndex` in `setStyle`). */
  function GridColumn(gridNumber: int): (c: int)
    ensures 0 <= EffectiveGridNumber(gridNumber) - 1 ==> 0 <= c < COLUMNS
    ensures gridNumber == 0 ==> c == 0
  {
    JsRem(EffectiveGridNumber(gridNumber) - 1, COLUMNS)
  }

  /** The 0-based row of the zoom origin cell (`rowIndex` in `setStyle`, a floor division). */
  function GridRow(gridNumber: int): (r: int)
    ensures 1 <= gridNumber <= 12 ==> 0 <= r < ROWS
    ensures gridNumber == 0 ==> r == 0
  {
    (EffectiveGridNumber(gridNumber) - 1) / COLUMNS
  }

  /** Row and column of a grid number name the cell that number counts to, row by row. */
  lemma GridPositionRoundTrip(gridNumber: int)
    requires 1 <= gridNumber <= 12
    ensures GridRow(gridNumber) * COLUMNS + GridColumn(gridNumber) + 1 == gridNumber
  {
  }

  // ===== Grids =====

  /** A cell of the day grid: an empty filler cell or a day of the month. */
  datatype DayCell = Empty | DayCell(day: int, selected: bool)

  predicate IsSelectedDay(c: DayCell) {
    c.DayCell? && c.selected
  }

  /**
   * The day grid of month `m` of year `y`: 42 cells, empty up to the
   * Monday-first weekday of the 1st, then the days in order, then empty; a
   * day is selected when it is `current`.
   */
  predicate IsDaysGrid(cells: seq<DayCell>, y: int, m: int, current: Date)
    requires ValidMonth(m)
  {
    var offset := (FirstDayOfMonth(y, m) + 6) % 7;
    var n := DaysInMonth(y, m);
    && |cells| == 42
    && (forall i :: 0 <= i < offset ==> cells[i] == Empty)
    && (forall i :: offset <= i < offset + n ==>
          cells[i] == DayCell(i - offset + 1, current == Date(y, m, i - offset + 1)))
    && (forall i :: offset + n <= i < 42 ==> cells[i] == Empty)
  }

  /** `renderCalendarDaysGrid(date)` */
  method RenderDaysGrid(date: Date, current: Date) returns (days: seq<DayCell>)
    requires ValidMonth(date.month)
    ensures IsDaysGrid(days, date.year, date.month, current)
  {
    var year := date.year;
    var month := date.month;
    var daysInMonth := DaysInMonth(year, month);
    var firstDayOfMonth := FirstDayOfMonth(year, month);
    var offset := (firstDayOfMonth + 6) % 7;
    days := [];
    var i := 0;
    while i < offset
      invariant 0 <= i <= offset && |days| == i
      invariant forall k :: 0 <= k < i ==> days[k] == Empty
    {
      days := days + [Empty];
      i := i + 1;
    }
    var day := 1;
    while day <= daysInMonth
      invariant 1 <= day <= daysInMonth + 1 && |days| == offset + day - 1
      invariant forall k :: 0 <= k < offset ==> days[k] == Empty
      invariant forall k :: offset <= k < |days| ==>
                  days[k] == DayCell(k - offset + 1, current == Date(year, month, k - offset + 1))
    {
      var isSelected := current.day == day && current.month == month && current.year == year;
      days := days + [DayCell(day, isSelected)];
      day := day + 1;
    }
    // complete the last row, then pad to six rows
    var totalCells := (daysInMonth + offset + 6) / 7 * 7;
    assert offset + daysInMonth <= totalCells <= 42;
    i := |days|;
    while i < totalCells
      invariant offset + daysInMonth <= i <= totalCells && |days| == i
      invariant forall k :: 0 <= k < offset ==> days[k] == Empty
      invariant forall k :: offset <= k < offset + daysInMonth ==>
                  days[k] == DayCell(k - offset + 1, current == Date(year, month, k - offset + 1))
      invariant forall k :: offset + daysInMonth <= k < |days| ==> days[k] == Empty
    {
      days := days + [Empty];
      i := i + 1;
    }
    while |days| < 42
      invariant |days| <= 42
      invariant forall k :: 0 <= k < offset ==> days[k] == Empty
      invariant forall k :: offset <= k < offset + daysInMonth ==>
                  days[k] == DayCell(k - offset + 1, current == Date(year, month, k - offset + 1))
      invariant forall k :: offset + daysInMonth <= k < |days| ==> days[k] == Empty
      decreases 42 - |days|
    {
      days := days + [Empty];
    }
  }

  /**
   * At most one cell of a day grid is selected, and one is exactly when the
   * current date lies in the month shown.
   */
  lemma DaysGridSelection(cells: seq<DayCell>, y: int, m: int, current: Date)
    requires ValidMonth(m) && IsDaysGrid(cells, y, m, current)
    ensures forall i, j :: 0 <= i < |cells| && 0 <= j < |cells| && IsSelectedDay(cells[i]) && IsSelectedDay(cells[j]) ==> i == j
    ensures (exists i :: 0 <= i < |cells| && IsSelectedDay(cells[i]))
        <==> current.year == y && current.month == m && 1 <= current.day <= DaysInMonth(y, m)
  {
    var offset := (FirstDayOfMonth(y, m) + 6) % 7;
    if current.year == y && current.month == m && 1 <= current.day <= DaysInMonth(y, m) {
      assert IsSelectedDay(cells[offset + current.day - 1]);
    }
  }

  /** Every day of a day grid stands in the column headed by its own weekday. */
  lemma DaysGridColumns(cells: seq<DayCell>, y: int, m: int, current: Date, i: int)
    requires ValidMonth(m) && IsDaysGrid(cells, y, m, current)
    requires 0 <= i < |cells| && cells[i].DayCell?
    ensures WEEKDAYS[i % 7] == DAY_NAMES[Weekday(y, m, cells[i].day)]
  {
    var first := FirstDayOfMonth(y, m);
    var offset := (first + 6) % 7;
    var d := cells[i].day;
    assert i == offset + d - 1;
    WeekdayOfDay(y, m, d);
    ModAdd(first + 6, d - 1);
    ModAdd(first + d - 1, 7);
    assert i % 7 == (Weekday(y, m, d) + 6) % 7;
  }

  /** A cell of the month grid. */
  datatype MonthCell = MonthCell(month: int, selected: bool)

  /**
   * The month grid drawn for `date`: the twelve months in order, the month
   * of `date` selected when `date` lies in the viewed year.
   */
  predicate IsMonthsGrid(cells: seq<MonthCell>, date: Date, viewYear: int) {
    && |cells| == 12
    && forall i :: 0 <= i < 12 ==> cells[i] == MonthCell(i, date.month == i && date.year == viewYear)
  }

  /** `renderCalendarMonthsGrid(date)`, with `viewYear` the year of `viewDate`. */
  method RenderMonthsGrid(date: Date, viewYear: int) returns (months: seq<MonthCell>)
    ensures IsMonthsGrid(months, date, viewYear)
  {
    months := [];
    var month := 0;
    while month < 12
      invariant 0 <= month <= 12 && |months| == month
      invariant forall i :: 0 <= i < month ==> months[i] == MonthCell(i, date.month == i && date.year == viewYear)
    {
      var isSelected := date.month == month && date.year == viewYear;
      months := months + [MonthCell(month, isSelected)];
      month := month + 1;
    }
  }

  /** The main month grid highlights exactly the viewed month. */
  lemma MainMonthsGridSelection(cells: seq<MonthCell>, viewDate: Date)
    requires ValidMonth(viewDate.month) && IsMonthsGrid(cells, viewDate, viewDate.year)
    ensures cells[viewDate.month].selected
    ensures forall i :: 0 <= i < 12 && cells[i].selected ==> i == viewDate.month
  {
  }

  /** The incoming month grid of a year slide highlights no month. */
  lemma IncomingMonthsGridHasNoSelection(cells: seq<MonthCell>, m: Mode, viewDate: Date)
    requires (m == MonthToPrevYear || m == MonthToNextYear) && ValidMonth(viewDate.month)
    requires IsMonthsGrid(cells, SlideTarget(m, viewDate), viewDate.year)
    ensures forall i :: 0 <= i < 12 ==> !cells[i].selected
  {
  }

  /** A cell of the year grid. */
  datatype YearCell = YearCell(year: int, selected: bool)

  /**
   * The year grid drawn for `date`: the twelve years of its block in order,
   * a year selected when it is the year of `current`.
   */
  predicate IsYearsGrid(cells: seq<YearCell>, date: Date, current: Date) {
    var start := StartYear(date.year);
    && |cells| == 12
    && forall i :: 0 <= i < 12 ==> cells[i] == YearCell(start + i, current.year == start + i)
  }

  /** `renderCalendarYearsGrid(date)` */
  method RenderYearsGrid(date: Date, current: Date) returns (years: seq<YearCell>)
    ensures IsYearsGrid(years, date, current)
  {
    var currentYear := date.year;
    var startYear := StartYear(currentYear);
    years := [];
    var i := 0;
    while i < 12
      invariant 0 <= i <= 12 && |years| == i
      invariant forall k :: 0 <= k < i ==> years[k] == YearCell(startYear + k, current.year == startYear + k)
    {
      var year := startYear + i;
      var isSelected := current.year == year;
      years := years + [YearCell(year, isSelected)];
      i := i + 1;
    }
  }

  /**
   * For a year not below 0 the year grid lists twelve consecutive years from
   * a multiple of 12, the year itself among them, and the header range
   * `start`..`start + 11` is that of the grid.
   */
  lemma YearsGridCoversYear(cells: seq<YearCell>, date: Date, current: Date)
    requires date.year >= 0 && IsYearsGrid(cells, date, current)
    ensures cells[0].year % 12 == 0
    ensures forall i :: 0 < i < 12 ==> cells[i].year == cells[i - 1].year + 1
    ensures cells[date.year - StartYear(date.year)].year == date.year
    ensures MainTitle(YearPicker, date) == Some(YearRangeTitle(cells[0].year, cells[11].year))
  {
  }

  /** At most one year is selected, and one is exactly when the current year is in the block. */
  lemma YearsGridSelection(cells: seq<YearCell>, date: Date, current: Date)
    requires IsYearsGrid(cells, date, current)
    ensures forall i, j :: 0 <= i < 12 && 0 <= j < 12 && cells[i].selected && cells[j].selected ==> i == j
    ensures (exists i :: 0 <= i < 12 && cells[i].selected)
        <==> StartYear(date.year) <= current.year <= StartYear(date.year) + 11
  {
    if StartYear(date.year) <= current.year <= StartYear(date.year) + 11 {
      assert cells[current.year - StartYear(date.year)].selected;
    }
  }

  /**
   * The grid number `handleYearClick` assigns for a year not below 0 lies in
   * 1..12 and counts to that year's cell in the year grid the view zooms to.
   */
  lemma YearClickGridNumber(year: int, cells: seq<YearCell>, date: Date, current: Date)
    requires year >= 0 && date.year == year && IsYearsGrid(cells, date, current)
    ensures 1 <= year - StartYear(year) + 1 <= 12
    ensures cells[year - StartYear(year)].year == year
  {
  }

  // ===== Panes and their animations =====

  /** The parts of the calendar that animate: two headers and six grids. */
  datatype Pane =
    | Header | TransitionHeader
    | YearsGrid | YearsTransitionGrid
    | MonthsGrid | MonthsTransitionGrid
    | DaysGrid | DaysTransitionGrid

  /** Whether a pane is rendered in a mode (while the calendar is open). */
  predicate Mounted(p: Pane, m: Mode) {
    match p
    case Header => true
    case TransitionHeader => IsSlideTransition(m)
    case YearsGrid => m in {YearPicker, MonthToYear, YearToMonth, YearToPrevYears, YearToNextYears}
    case YearsTransitionGrid => m in {YearToPrevYears, YearToNextYears}
    case MonthsGrid =>
      m in {MonthPicker, MonthToDay, DayToMonth, MonthToYear, YearToMonth, MonthToPrevYear, MonthToNextYear}
    case MonthsTransitionGrid => m in {MonthToPrevYear, MonthToNextYear}
    case DaysGrid => m in {DayPicker, MonthToDay, DayToMonth, DayToPrevMonth, DayToNextMonth}
    case DaysTransitionGrid => m in {DayToPrevMonth, DayToNextMonth}
  }

  /** The grids that carry an `onAnimationEnd` handler. */
  predicate HasAnimationEndHandler(p: Pane) {
    p == YearsGrid || p == YearsTransitionGrid || p == MonthsGrid || p == DaysGrid
  }

  /** The `ANIMATIONS` entries, and no animation. */
  datatype Animation =
    | Still
    | SlideLeft | SlideRight | MainSlideLeft | MainSlideRight
    | Contract | Expand | MainContract | MainExpand

  /** The animation a pane runs in a mode (the `setClassNameFor...` functions). */
  function AnimationOf(p: Pane, m: Mode): Animation {
    match p
    case Header =>
      if IsPrevTransition(m) then SlideRight else if IsNextTransition(m) then MainSlideLeft else Still
    case TransitionHeader =>
      if IsPrevTransition(m) then MainSlideRight else if IsNextTransition(m) then SlideLeft else Still
    case YearsGrid =>
      (match m
       case MonthToYear => Contract
       case YearToMonth => Expand
       case YearToPrevYears => SlideRight
       case YearToNextYears => MainSlideLeft
       case _ => Still)
    case YearsTransitionGrid =>
      (match m
       case YearToPrevYears => MainSlideRight
       case YearToNextYears => SlideLeft
       case _ => Still)
    case MonthsGrid =>
      (match m
       case DayToMonth => Contract
       case MonthToDay => Expand
       case MonthToYear => MainContract
       case YearToMonth => MainExpand
       case MonthToPrevYear => SlideRight
       case MonthToNextYear => MainSlideLeft
       case _ => Still)
    case MonthsTransitionGrid =>
      (match m
       case MonthToPrevYear => MainSlideRight
       case MonthToNextYear => SlideLeft
       case _ => Still)
    case DaysGrid =>
      (match m
       case DayToMonth => MainContract
       case MonthToDay => MainExpand
       case DayToPrevMonth => SlideRight
       case DayToNextMonth => MainSlideLeft
       case _ => Still)
    case DaysTransitionGrid =>
      (match m
       case DayToPrevMonth => MainSlideRight
       case DayToNextMonth => SlideLeft
       case _ => Still)
  }

  /**
   * Every transition mode animates a mounted grid that has an animation-end
   * handler, so it always settles; in a steady mode nothing animates.
   */
  lemma TransitionsAnimate(m: Mode)
    ensures !IsSteady(m) ==>
      exists p :: Mounted(p, m) && HasAnimationEndHandler(p) && AnimationOf(p, m) != Still
    ensures IsSteady(m) ==> forall p :: Mounted(p, m) ==> AnimationOf(p, m) == Still
  {
    if !IsSteady(m) {
      var p := match m
        case DayToMonth | MonthToDay | DayToPrevMonth | DayToNextMonth => DaysGrid
        case MonthToPrevYear | MonthToNextYear => MonthsGrid
        case _ => YearsGrid;
      assert Mounted(p, m) && HasAnimationEndHandler(p) && AnimationOf(p, m) != Still;
    }
  }

  /**
   * In a slide every mounted pane moves the same way: to the right for
   * "previous", to the left for "next"; while zooming every mounted grid
   * contracts (zooming out) or expands (zooming in) and the header stays still.
   */
  lemma PanesMoveTogether(p: Pane, m: Mode)
    requires Mounted(p, m)
    ensures IsPrevTransition(m) ==> AnimationOf(p, m) in {SlideRight, MainSlideRight}
    ensures IsNextTransition(m) ==> AnimationOf(p, m) in {SlideLeft, MainSlideLeft}
    ensures m in {DayToMonth, MonthToYear} && p != Header ==> AnimationOf(p, m) in {Contract, MainContract}
    ensures m in {MonthToDay, YearToMonth} && p != Header ==> AnimationOf(p, m) in {Expand, MainExpand}
    ensures m in {DayToMonth, MonthToYear, MonthToDay, YearToMonth} && p == Header ==> AnimationOf(p, m) == Still
  {
  }

  /**
   * The navigator buttons are hidden exactly while the header slides
   * (`setClassNameForNavigatorButtons`); they stay visible in the steady
   * modes, where `HandlePrev` and `HandleNext` start a slide, and during the
   * zooms, where those handlers change nothing. The first two clauses
   * record that the source tests one predicate, `isSlideTransition`, for the
   * buttons, the header animations and the mounting of the transition header.
   */
  function NavigatorButtonsHidden(m: Mode): (hidden: bool)
    ensures hidden <==> Mounted(TransitionHeader, m)
    ensures hidden <==> AnimationOf(Header, m) != Still
    ensures !hidden <==> IsSteady(m) || HeaderLevel(m) == None
  {
    IsSlideTransition(m)
  }

  // ===== Header titles =====

  /** A header title: month and year, a year, or a twelve-year range. */
  datatype Title = MonthYearTitle(month: int, year: int) | YearTitle(year: int) | YearRangeTitle(first: int, last: int)

  function LevelTitle(l: Level, d: Date): Title {
    match l
    case DayLevel => MonthYearTitle(d.month, d.year)
    case MonthLevel => YearTitle(d.year)
    case YearLevel => YearRangeTitle(StartYear(d.year), StartYear(d.year) + 11)
  }

  /** The title of the main header: that of the mode's level for the view date. */
  function MainTitle(m: Mode, viewDate: Date): Option<Title> {
    match HeaderLevel(m)
    case Some(l) => Some(LevelTitle(l, viewDate))
    case None => None
  }

  /** The title of the incoming header of a slide, for the pending target. */
  function IncomingTitle(vs: ViewState): Option<Title> {
    match vs.mode
    case DayToPrevMonth | DayToNextMonth => Some(MonthYearTitle(vs.setMonth.month, vs.setMonth.year))
    case MonthToPrevYear | MonthToNextYear => Some(YearTitle(vs.setYear.year))
    case YearToPrevYears | YearToNextYears =>
      Some(YearRangeTitle(StartYear(vs.setYear.year), StartYear(vs.setYear.year) + 11))
    case _ => None
  }

  /** The incoming header of a slide shows what the main header shows once the slide has ended. */
  lemma IncomingHeaderPreviewsSettledHeader(vs: ViewState, viewDate: Date)
    requires IsSlideTransition(vs.mode)
    ensures IncomingTitle(vs) == MainTitle(Settle(vs.mode), SettledViewDate(vs, viewDate))
    ensures IncomingTitle(vs) != None
  {
  }

  // ===== The component =====

  /** The date picker's state and its event handlers. */
  class Picker {
    var isOpen: bool
    var currentDate: Date
    var viewDate: Date
    var viewState: ViewState

    /**
     * All dates exist, and a slide's pending target is the slide's step
     * from the view date.
     */
    predicate Valid()
      reads this
    {
      && ValidDate(currentDate) && ValidDate(viewDate)
      && ValidDate(viewState.setMonth) && ValidDate(viewState.setYear)
      && (IsSlideTransition(viewState.mode) ==> PendingTarget(viewState) == SlideTarget(viewState.mode, viewDate))
    }

    /** The initial state: closed, day view, both dates `selectedDate` or else today. */
    constructor (selectedDate: Option<Date>, now: Date)
      requires ValidDate(now)
      requires selectedDate.Some? ==> ValidDate(selectedDate.value)
      ensures Valid()
      ensures !isOpen
      ensures currentDate == viewDate == (if selectedDate.Some? then selectedDate.value else now)
      ensures viewState == ViewState(1, DayPicker, now, now)
    {
      isOpen := false;
      currentDate := if selectedDate.Some? then selectedDate.value else now;
      viewDate := if selectedDate.Some? then selectedDate.value else now;
      viewState := ViewState(1, DayPicker, now, now);
    }

    /** `handlePrev`: from a steady mode start the slide back and record its target; otherwise nothing. */
    method HandlePrev()
      requires Valid() && isOpen
      modifies this
      ensures Valid()
      ensures old(viewState.mode) == DayPicker ==>
        viewState == old(viewState).(mode := DayToPrevMonth,
                                     setMonth := FirstOf(MonthBefore(old(viewDate.year), old(viewDate.month))))
      ensures old(viewState.mode) == MonthPicker ==>
        viewState == old(viewState).(mode := MonthToPrevYear,
                                     setYear := Date(old(viewDate.year) - 1, old(viewDate.month), 1))
      ensures old(viewState.mode) == YearPicker ==>
        viewState == old(viewState).(mode := YearToPrevYears,
                                     setYear := Date(old(viewDate.year) - 12, old(viewDate.month), 1))
      ensures IsSteady(old(viewState.mode)) ==> IsPrevTransition(viewState.mode)
      ensures !IsSteady(old(viewState.mode)) ==> viewState == old(viewState)
      ensures isOpen == old(isOpen) && currentDate == old(currentDate) && viewDate == old(viewDate)
    {
      match viewState.mode {
        case DayPicker =>
          var prevMonth := FirstOf(MonthBefore(viewDate.year, viewDate.month));
          viewState := viewState.(mode := DayToPrevMonth, setMonth := prevMonth);
        case MonthPicker =>
          var prevYear := Date(viewDate.year - 1, viewDate.month, 1);
          viewState := viewState.(mode := MonthToPrevYear, setYear := prevYear);
        case YearPicker =>
          var prevYearGroup := Date(viewDate.year - 12, viewDate.month, 1);
          viewState := viewState.(mode := YearToPrevYears, setYear := prevYearGroup);
        case _ =>
      }
    }

    /** `handleNext`: from a steady mode start the slide forward and record its target; otherwise nothing. */
    method HandleNext()
      requires Valid() && isOpen
      modifies this
      ensures Valid()
      ensures old(viewState.mode) == DayPicker ==>
        viewState == old(viewState).(mode := DayToNextMonth,
                                     setMonth := FirstOf(MonthAfter(old(viewDate.year), old(viewDate.month))))
      ensures old(viewState.mode) == MonthPicker ==>
        viewState == old(viewState).(mode := MonthToNextYear,
                                     setYear := Date(old(viewDate.year) + 1, old(viewDate.month), 1))
      ensures old(viewState.mode) == YearPicker ==>
        viewState == old(viewState).(mode := YearToNextYears,
                                     setYear := Date(old(viewDate.year) + 12, old(viewDate.month), 1))
      ensures IsSteady(old(viewState.mode)) ==> IsNextTransition(viewState.mode)
      ensures !IsSteady(old(viewState.mode)) ==> viewState == old(viewState)
      ensures isOpen == old(isOpen) && currentDate == old(currentDate) && viewDate == old(viewDate)
    {
      match viewState.mode {
        case DayPicker =>
          var nextMonth := FirstOf(MonthAfter(viewDate.year, viewDate.month));
          viewState := viewState.(mode := DayToNextMonth, setMonth := nextMonth);
        case MonthPicker =>
          var nextYear := Date(viewDate.year + 1, viewDate.month, 1);
          viewState := viewState.(mode := MonthToNextYear, setYear := nextYear);
        case YearPicker =>
          var nextYear := Date(viewDate.year + 12, viewDate.month, 1);
          viewState := viewState.(mode := YearToNextYears, setYear := nextYear);
        case _ =>
      }
    }

    /**
     * `handleMonthClick`, offered by the title of the day level: zoom out to
     * the months from the cell of `month`. It does not look at the mode, so a
     * click during a month slide drops the slide's pending target.
     */
    method HandleMonthClick(month: int)
      requires Valid() && ValidMonth(month)
      requires isOpen && HeaderLevel(viewState.mode) == Some(DayLevel)
      modifies this
      ensures Valid()
      ensures viewState == old(viewState).(gridNumber := month + 1, mode := DayToMonth)
      ensures 1 <= viewState.gridNumber <= 12
      ensures isOpen == old(isOpen) && currentDate == old(currentDate) && viewDate == old(viewDate)
    {
      viewState := viewState.(gridNumber := month + 1, mode := DayToMonth);
    }

    /**
     * `handleYearClick`, offered by the title of the month level: zoom out to
     * the years from the cell of `year`, moving the view to the 1st of the
     * viewed month in `year`.
     */
    method HandleYearClick(year: int)
      requires Valid() && isOpen && HeaderLevel(viewState.mode) == Some(MonthLevel)
      modifies this
      ensures Valid()
      ensures viewState == old(viewState).(gridNumber := year - StartYear(year) + 1, mode := MonthToYear)
      ensures year >= 0 ==> 1 <= viewState.gridNumber <= 12
      ensures viewDate == Date(year, old(viewDate.month), 1)
      ensures isOpen == old(isOpen) && currentDate == old(currentDate)
    {
      viewState := viewState.(gridNumber := year - StartYear(year) + 1, mode := MonthToYear);
      viewDate := Date(year, viewDate.month, 1);
    }

    /** `handleToggleCalendar`: open or close, and go back to the day view. */
    method HandleToggleCalendar()
      requires Valid()
      modifies this
      ensures Valid()
      ensures isOpen == !old(isOpen)
      ensures viewState == old(viewState).(mode := DayPicker)
      ensures currentDate == old(currentDate) && viewDate == old(viewDate)
    {
      isOpen := !isOpen;
      viewState := viewState.(mode := DayPicker);
    }

    /**
     * `handleDateSelect`, the click on day `day` of a day grid: select day
     * `day` of the viewed month and close. The cells of the incoming grid of
     * a month slide call it too, so their day numbers (up to 31) are taken
     * in the month being left, rolling over past its end.
     */
    method HandleDateSelect(day: int)
      requires Valid() && 1 <= day <= 31
      requires isOpen && Mounted(DaysGrid, viewState.mode)
      modifies this
      ensures Valid()
      ensures currentDate == DateOfDay(old(viewDate.year), old(viewDate.month), day)
      ensures day <= DaysInMonth(old(viewDate.year), old(viewDate.month)) ==>
                currentDate == Date(old(viewDate.year), old(viewDate.month), day)
      ensures !isOpen
      ensures viewDate == old(viewDate) && viewState == old(viewState)
    {
      currentDate := DateOfDay(viewDate.year, viewDate.month, day);
      isOpen := false;
    }

    /** The click on cell `month` of a month grid: zoom in to that month of the viewed year. */
    method ClickMonthCell(month: int)
      requires Valid() && ValidMonth(month)
      requires isOpen && Mounted(MonthsGrid, viewState.mode)
      modifies this
      ensures Valid()
      ensures viewDate == Date(old(viewDate.year), month, 1)
      ensures viewState == old(viewState).(gridNumber := month + 1, mode := MonthToDay)
      ensures 1 <= viewState.gridNumber <= 12
      ensures isOpen == old(isOpen) && currentDate == old(currentDate)
    {
      viewDate := Date(viewDate.year, month, 1);
      viewState := viewState.(gridNumber := month + 1, mode := MonthToDay);
    }

    /**
     * The click on cell `i` of the main or the incoming year grid: zoom in to
     * that year, keeping the month of the date the grid was drawn for.
     */
    method ClickYearCell(grid: Pane, i: int)
      requires Valid() && (grid == YearsGrid || grid == YearsTransitionGrid) && 0 <= i < 12
      requires isOpen && Mounted(grid, viewState.mode)
      modifies this
      ensures Valid()
      ensures var date := if grid == YearsGrid then old(viewDate) else old(viewState.setYear);
              viewDate == Date(StartYear(date.year) + i, date.month, 1)
      ensures viewState == old(viewState).(gridNumber := i + 1, mode := YearToMonth)
      ensures 1 <= viewState.gridNumber <= 12
      ensures isOpen == old(isOpen) && currentDate == old(currentDate)
    {
      var date := if grid == YearsGrid then viewDate else viewState.setYear;
      var year := StartYear(date.year) + i;
      viewDate := Date(year, date.month, 1);
      viewState := viewState.(gridNumber := i + 1, mode := YearToMonth);
    }

    /**
     * The `onAnimationEnd` handler of a mounted grid. The four handlers are
     * written separately, yet for every mode each one that is mounted settles
     * the same way: the mode becomes `Settle(mode)` and a slide commits its
     * target to the view date.
     */
    method OnAnimationEnd(grid: Pane)
      requires Valid() && HasAnimationEndHandler(grid)
      requires isOpen && Mounted(grid, viewState.mode)
      modifies this
      ensures Valid()
      ensures viewState == old(viewState).(mode := Settle(old(viewState.mode)))
      ensures viewDate == SettledViewDate(old(viewState), old(viewDate))
      ensures IsSlideTransition(old(viewState.mode)) ==> viewDate == SlideTarget(old(viewState.mode), old(viewDate))
      ensures isOpen == old(isOpen) && currentDate == old(currentDate)
    {
      var toMode := viewState.mode;
      match grid {
        case YearsGrid =>
          if viewState.mode == MonthToYear {
            toMode := YearPicker;
          } else if viewState.mode == YearToMonth {
            toMode := MonthPicker;
          } else if viewState.mode == YearToPrevYears {
            viewDate := viewState.setYear;
            viewState := viewState.(mode := YearPicker);
            return;
          } else if viewState.mode == YearToNextYears {
            viewDate := viewState.setYear;
            viewState := viewState.(mode := YearPicker);
            return;
          }
        case YearsTransitionGrid =>
          if viewState.mode == YearToMonth {
            toMode := MonthPicker;
          } else if viewState.mode == YearToPrevYears {
            viewDate := viewState.setYear;
            viewState := viewState.(mode := YearPicker);
            return;
          } else if viewState.mode == YearToNextYears {
            viewDate := viewState.setYear;
            viewState := viewState.(mode := YearPicker);
            return;
          }
        case MonthsGrid =>
          if viewState.mode == YearToMonth {
            toMode := MonthPicker;
          } else if viewState.mode == MonthToYear {
            toMode := YearPicker;
          } else if viewState.mode == MonthToDay {
            toMode := DayPicker;
          } else if viewState.mode == DayToMonth {
            toMode := MonthPicker;
          } else if viewState.mode == MonthToPrevYear {
            viewDate := viewState.setYear;
            viewState := viewState.(mode := MonthPicker);
            return;
          } else if viewState.mode == MonthToNextYear {
            viewDate := viewState.setYear;
            viewState := viewState.(mode := MonthPicker);
            return;
          }
        case DaysGrid =>
          if viewState.mode == MonthToDay {
            toMode := DayPicker;
          } else if viewState.mode == DayToMonth {
            toMode := MonthPicker;
          } else if viewState.mode == DayToPrevMonth {
            viewDate := viewState.setMonth;
            viewState := viewState.(mode := DayPicker);
            return;
          } else if viewState.mode == DayToNextMonth {
            viewDate := viewState.setMonth;
            viewState := viewState.(mode := DayPicker);
            return;
          }
      }
      viewState := viewState.(mode := toMode);
    }
  }

  /**
   * Pressing "previous" in the day view and letting the slide finish shows
   * the 1st of the month before, back in the day view.
   */
  method PreviousMonthGesture(p: Picker)
    requires p.Valid() && p.isOpen && p.viewState.mode == DayPicker
    modifies p
    ensures p.Valid() && p.viewState.mode == DayPicker
    ensures p.viewDate == FirstOf(MonthBefore(old(p.viewDate.year), old(p.viewDate.month)))
    ensures p.currentDate == old(p.currentDate) && p.isOpen == old(p.isOpen)
  {
    p.HandlePrev();
    p.OnAnimationEnd(DaysGrid);
  }

  /**
   * A click on the month title of the day view followed by the end of the
   * zoom shows the month view of the same date, zoomed from that month's cell.
   */
  method ZoomOutToMonthsGesture(p: Picker)
    requires p.Valid() && p.isOpen && HeaderLevel(p.viewState.mode) == Some(DayLevel)
    modifies p
    ensures p.Valid() && p.viewState.mode == MonthPicker
    ensures p.viewState.gridNumber == old(p.viewDate.month) + 1
    ensures p.viewDate == old(p.viewDate)
    ensures p.currentDate == old(p.currentDate) && p.isOpen
  {
    p.HandleMonthClick(p.viewDate.month);
    p.OnAnimationEnd(DaysGrid);
  }

  /**
   * A click on the year title of the month view followed by the end of the
   * zoom shows the year view of the viewed year, zoomed from that year's cell.
   */
  method ZoomOutToYearsGesture(p: Picker)
    requires p.Valid() && p.isOpen && HeaderLevel(p.viewState.mode) == Some(MonthLevel)
    modifies p
    ensures p.Valid() && p.viewState.mode == YearPicker
    ensures p.viewDate == Date(old(p.viewDate.year), old(p.viewDate.month), 1)
    ensures p.viewState.gridNumber == old(p.viewDate.year) - StartYear(old(p.viewDate.year)) + 1
    ensures p.currentDate == old(p.currentDate) && p.isOpen
  {
    p.HandleYearClick(p.viewDate.year);
    p.OnAnimationEnd(YearsGrid);
  }

  /**
   * A click on a month cell followed by the end of the zoom shows the day
   * view of the 1st of that month of the viewed year.
   */
  method ZoomInToDaysGesture(p: Picker, month: int)
    requires p.Valid() && p.isOpen && Mounted(MonthsGrid, p.viewState.mode) && ValidMonth(month)
    modifies p
    ensures p.Valid() && p.viewState.mode == DayPicker
    ensures p.viewDate == Date(old(p.viewDate.year), month, 1)
    ensures p.currentDate == old(p.currentDate) && p.isOpen
  {
    p.ClickMonthCell(month);
    p.OnAnimationEnd(DaysGrid);
  }

  /**
   * A click on cell `i` of a year grid followed by the end of the zoom shows
   * the month view of that year, in the month of the date the grid was drawn for.
   */
  method ZoomInToMonthsGesture(p: Picker, grid: Pane, i: int)
    requires p.Valid() && p.isOpen && (grid == YearsGrid || grid == YearsTransitionGrid)
    requires Mounted(grid, p.viewState.mode) && 0 <= i < 12
    modifies p
    ensures p.Valid() && p.viewState.mode == MonthPicker
    ensures var date := if grid == YearsGrid then old(p.viewDate) else old(p.viewState.setYear);
            p.viewDate == Date(StartYear(date.year) + i, date.month, 1)
    ensures p.currentDate == old(p.currentDate) && p.isOpen
  {
    p.ClickYearCell(grid, i);
    p.OnAnimationEnd(MonthsGrid);
  }
}
