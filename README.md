# Date picker view-state machine, in Dafny

This project models the two date-picker components of *my-datepicker-journey* and proves properties of the model.

**`DatePicker`** is the animated picker. It shows one of three pickers: days, months or years. It moves between them through ten transition modes:
- four zooms: day to month, month to day, month to year and year to month;
- six slides: to the previous or next month, year, or twelve-year block.

Each transition ends when a grid's `onAnimationEnd` handler fires. The handler puts the view into a steady mode and, for a slide, commits the pending target (`setMonth` or `setYear`) to the view date. The component also renders:
- a Monday-first day grid of 42 cells;
- a month grid of twelve cells;
- a year grid of twelve cells that starts at a multiple of 12.

**`DatePickerV1`** is the earlier picker. It has a day view and a month view and no animation. It reports selected dates through `onChange`.

The modules:
- **`Calendar`** is the stand-in for the JavaScript `Date` operations both components use:
  - leap years and month lengths;
  - the weekday of a date (Sakamoto's formula, 0 = Sunday as `getDay()` numbers it);
  - stepping to the month before or after;
  - the roll-over of a day past the end of a month;
  - JavaScript's truncating `%`.
  The weekday formula is proved consistent with the month lengths: the 1st of the next month falls `DaysInMonth` weekdays later, 1 January falls `DaysBeforeMonth` weekdays before the 1st of any month, and a year shifts the weekday by 365 or 366 days.
- **`DatePicker`** has:
  - the 13 modes, and `Settle`, the steady mode a transition ends in;
  - the slide targets, and `StartYear` (`getStartYear`);
  - the zoom origin cell (`setStyle`'s row and column);
  - which panes are mounted in which mode, and the animation each pane runs;
  - the header titles;
  - the three grid renderers, as loop methods proved against grid predicates;
  - class `Picker`, which holds the component state (`isOpen`, `currentDate`, `viewDate`, `viewState`) and every event handler.

  `Picker.Valid()` is the class invariant. It says every date exists and, in a slide mode, the pending target is the slide's step from the view date. Every handler preserves it.
- **`DatePickerV1`** has the two grid generators as loop methods and class `PickerV1`. The class records each `onChange` argument in the sequence `emitted`.

Behaviours of the code that the model keeps as written:
- The month grid of `DatePicker` highlights the month of the date it is drawn for, when that date lies in the viewed year. It does not look at `currentDate`. So the main grid highlights the viewed month, and the incoming grid of a year slide highlights nothing.
- A click on the header title during a slide starts a zoom and drops the slide's pending target. No invariant is broken by this.
- Cells of the incoming day grid of a month slide call `handleDateSelect` with their own day numbers. That handler takes those numbers in the month being left, so clicking day 31 of the incoming month while leaving a 30-day month selects the 1st of the month after the one being left.
- `getStartYear` uses the truncating `%`. For negative years it returns a block that starts above the year (`NegativeYearsShareBlockZero`). The block properties are proved for years from 0 up.
- In `DatePickerV1` the "‹" and "›" buttons step by a month in the month view too. Choosing a month also selects its 1st and reports it.

## Model

| member | source | states |
|---|---|---|
| `Calendar.DaysInMonth` | src/components/DatePicker/DatePicker.jsx:162 | a month has 28 to 31 days; February has 29 exactly in a leap year and 28 exactly otherwise |
| `Calendar.FirstOf` | src/components/DatePicker/DatePicker.jsx:95 | the 1st of a month is a date that exists |
| `Calendar.Weekday` | src/components/DatePicker/DatePicker.jsx:165 | the weekday is in 0..6 |
| `Calendar.FirstDayOfMonth` | src/components/DatePicker/DatePicker.jsx:165 | the weekday of the 1st of a month is in 0..6 |
| `Calendar.WeekdayOfDay` | src/components/DatePicker/DatePicker.jsx:385-386 | day `d` falls `d - 1` weekdays after the 1st of its month |
| `Calendar.DateOfDay` | src/components/DatePicker/DatePicker.jsx:315 | `new Date(y, m, day)` for days 1..31 is a date that exists: day `day` of the month when the month has it, otherwise the rolled-over day of the next month; either way it falls on the weekday counted on from the 1st |
| `Calendar.EpochIsThursday` | src/components/DatePicker/DatePicker.jsx:165 | 1 January 1970 gets weekday 4 (Thursday) |
| `Calendar.MonthBefore` | src/components/DatePicker/DatePicker.jsx:95 | the previous month, rolling January back to December of the previous year, is one month earlier on the month line |
| `Calendar.MonthAfter` | src/components/DatePicker/DatePicker.jsx:130 | the next month, rolling December over to January of the next year, is one month later on the month line |
| `Calendar.MonthIndexInjective` | src/components/DatePicker/DatePicker.jsx:95 | two valid months at the same place on the month line are the same |
| `Calendar.MonthStepsCancel` | src/components/DatePicker/DatePicker.jsx:92-159 | stepping a month back then forward, or forward then back, returns to the same month |
| `Calendar.YearTermStep` | src/components/DatePicker/DatePicker.jsx:165 | a year adds one day of weekday shift, two for a leap year |
| `Calendar.FirstDaySumStep` | src/components/DatePicker/DatePicker.jsx:162-165 | the weekday sums for the 1st of a month and of the next month differ by the month's length, up to whole weeks |
| `Calendar.FirstDayOfNextMonth` | src/components/DatePicker/DatePicker.jsx:162-165 | the 1st of the next month falls `DaysInMonth` weekdays after the 1st of this one |
| `Calendar.DaysBeforeMonthTable` | src/components/DatePicker/DatePicker.jsx:162 | the days before each month follow the cumulative table, plus one after February in a leap year |
| `Calendar.YearLength` | src/components/DatePicker/DatePicker.jsx:162 | a year has 366 days when it is a leap year and 365 otherwise |
| `Calendar.FirstDayFromJanuary` | src/components/DatePicker/DatePicker.jsx:162-165 | the 1st of a month falls `DaysBeforeMonth` weekdays after 1 January |
| `Calendar.NewYearWeekday` | src/components/DatePicker/DatePicker.jsx:162-165 | 1 January of the next year falls 365 or 366 weekdays later |
| `Calendar.JsRem` | src/components/DatePicker/DatePicker.jsx:167 | JavaScript `%` by a positive divisor: the remainder of the quotient rounded toward zero, with the sign of the dividend and magnitude below the divisor |
| `DatePicker.SlideModes` | src/components/DatePicker/DatePicker.jsx:71-89 | no mode is both a previous and a next transition; exactly the six slide modes slide |
| `DatePicker.IsSteady` | src/components/DatePicker/DatePicker.jsx:13-16 | definition, no contract: the DAY, MONTH and YEAR modes that `handlePrev` and `handleNext` switch on; related by `Settle`, `Picker.HandlePrev` and `Picker.HandleNext` |
| `DatePicker.IsPrevTransition` | src/components/DatePicker/DatePicker.jsx:71-78 | definition, no contract; related to the slide targets and animations by `SlideModes`, `SlideTarget` and `PanesMoveTogether` |
| `DatePicker.IsNextTransition` | src/components/DatePicker/DatePicker.jsx:80-87 | definition, no contract; related to the slide targets and animations by `SlideModes`, `SlideTarget` and `PanesMoveTogether` |
| `DatePicker.IsSlideTransition` | src/components/DatePicker/DatePicker.jsx:89 | definition, no contract; related by `SlideModes` and `NavigatorButtonsHidden` |
| `DatePicker.HeaderLevel` | src/components/DatePicker/DatePicker.jsx:507-543 | definition, no contract: which title the main header shows in each mode; related by `Settle` and `IncomingHeaderPreviewsSettledHeader` |
| `DatePicker.Settle` | src/components/DatePicker/DatePicker.jsx:600-753 | the mode an animation ends in is steady: a zoom `X_TO_Y` ends in `Y`, a slide in the steady mode of its own level, a steady mode stays |
| `DatePicker.SlideTarget` | src/components/DatePicker/DatePicker.jsx:92-159 | a slide moves the view to the 1st of a month that is 1, 12 or 144 months earlier or later |
| `DatePicker.PendingTarget` | src/components/DatePicker/DatePicker.jsx:734-735 | definition, no contract: the slide target recorded for the mode (`setMonth` for a month slide, `setYear` otherwise); related by `Picker.Valid` and `Picker.OnAnimationEnd` |
| `DatePicker.SettledViewDate` | src/components/DatePicker/DatePicker.jsx:600-753 | definition, no contract: the view date after the animation ends; related by `Picker.OnAnimationEnd`, which equals it to `SlideTarget` for a slide |
| `DatePicker.SlidesCancel` | src/components/DatePicker/DatePicker.jsx:92-159 | a slide back and the matching slide forward, in either order, return to the 1st of the viewed month |
| `DatePicker.StartYear` | src/components/DatePicker/DatePicker.jsx:167 | the year block starts at a multiple of 12 and, for a year from 0 up, holds the year among its twelve; below 0 it starts above the year unless the year is a multiple of 12 |
| `DatePicker.StartYearShift` | src/components/DatePicker/DatePicker.jsx:112-118 | for years from 0 up, moving twelve years moves the block by twelve years |
| `DatePicker.NegativeYearsShareBlockZero` | src/components/DatePicker/DatePicker.jsx:167 | years -11 to 11 all get the block that starts at 0 |
| `DatePicker.EffectiveGridNumber` | src/components/DatePicker/DatePicker.jsx:290 | definition, no contract: a missing grid number (0) counts as 1; related by `GridColumn` and `GridRow` |
| `DatePicker.GridColumn` | src/components/DatePicker/DatePicker.jsx:290-291 | the zoom origin column is in 0..3, and 0 for a missing grid number |
| `DatePicker.GridRow` | src/components/DatePicker/DatePicker.jsx:303 | the zoom origin row of grid numbers 1..12 is in 0..2, and 0 for a missing grid number |
| `DatePicker.GridPositionRoundTrip` | src/components/DatePicker/DatePicker.jsx:285-310 | row and column of a grid number 1..12 name the cell that number counts to, row by row |
| `DatePicker.RenderDaysGrid` | src/components/DatePicker/DatePicker.jsx:381-425 | the day grid has 42 cells: empty up to the Monday-first weekday of the 1st, then the days in order, each selected when it is the current date, then empty |
| `DatePicker.DaysGridSelection` | src/components/DatePicker/DatePicker.jsx:395-400 | at most one day is highlighted, and one is exactly when the current date lies in the month shown |
| `DatePicker.DaysGridColumns` | src/components/DatePicker/DatePicker.jsx:386 | every day stands in the column whose `WEEKDAYS` heading is its own weekday |
| `DatePicker.RenderMonthsGrid` | src/components/DatePicker/DatePicker.jsx:352-376 | the month grid lists the twelve months in order, highlighting the month of the drawn date when that date lies in the viewed year |
| `DatePicker.MainMonthsGridSelection` | src/components/DatePicker/DatePicker.jsx:355 | the main month grid highlights the viewed month and no other |
| `DatePicker.IncomingMonthsGridHasNoSelection` | src/components/DatePicker/DatePicker.jsx:710-717 | the incoming month grid of a year slide highlights nothing |
| `DatePicker.RenderYearsGrid` | src/components/DatePicker/DatePicker.jsx:428-457 | the year grid lists the twelve years of the block in order, each highlighted when it is the current year |
| `DatePicker.YearsGridCoversYear` | src/components/DatePicker/DatePicker.jsx:428-434 | for a year from 0 up, the grid holds twelve consecutive years starting at a multiple of 12, the year among them, and its first and last years are the range in the header title |
| `DatePicker.YearsGridSelection` | src/components/DatePicker/DatePicker.jsx:435 | at most one year is highlighted, and one is exactly when the current year is in the block |
| `DatePicker.YearClickGridNumber` | src/components/DatePicker/DatePicker.jsx:333-340 | for a year from 0 up, the grid number given by a year click is in 1..12 and counts to that year's cell |
| `DatePicker.HasAnimationEndHandler` | src/components/DatePicker/DatePicker.jsx:600 | definition, no contract: the four grids that carry an `onAnimationEnd` handler (lines 600, 636, 676 and 728; the incoming month and day grids have none); related by `TransitionsAnimate` and `Picker.OnAnimationEnd` |
| `DatePicker.Mounted` | src/components/DatePicker/DatePicker.jsx:590-775 | definition, no contract: which panes each mode renders; related by `TransitionsAnimate` and `Picker.OnAnimationEnd` |
| `DatePicker.AnimationOf` | src/components/DatePicker/DatePicker.jsx:169-273 | definition, no contract: the `setClassNameFor...` tables; related by `TransitionsAnimate`, `PanesMoveTogether` and `NavigatorButtonsHidden` |
| `DatePicker.TransitionsAnimate` | src/components/DatePicker/DatePicker.jsx:169-249 | every transition animates a mounted grid that has an animation-end handler; in a steady mode no mounted pane animates |
| `DatePicker.PanesMoveTogether` | src/components/DatePicker/DatePicker.jsx:169-273 | in a previous slide every mounted pane moves right and in a next slide left; zooming out every grid contracts, zooming in every grid expands, and the header stays still |
| `DatePicker.NavigatorButtonsHidden` | src/components/DatePicker/DatePicker.jsx:275-283 | the navigator buttons are hidden exactly when the transition header is mounted and exactly when the header slides; they are visible in the steady modes and in the four zooms |
| `DatePicker.LevelTitle` | src/components/DatePicker/DatePicker.jsx:512-541 | definition, no contract: the title of a level for a date; related by `YearsGridCoversYear` and `IncomingHeaderPreviewsSettledHeader` |
| `DatePicker.MainTitle` | src/components/DatePicker/DatePicker.jsx:507-543 | definition, no contract; related by `YearsGridCoversYear` and `IncomingHeaderPreviewsSettledHeader` |
| `DatePicker.IncomingTitle` | src/components/DatePicker/DatePicker.jsx:548-587 | definition, no contract; related by `IncomingHeaderPreviewsSettledHeader` |
| `DatePicker.IncomingHeaderPreviewsSettledHeader` | src/components/DatePicker/DatePicker.jsx:548-587 | during a slide the incoming header shows the title the main header will show once the slide ends |
| `DatePicker.Picker.constructor` | src/components/DatePicker/DatePicker.jsx:32-41 | the picker starts closed in the day view, both dates being the selected date or else today |
| `DatePicker.Picker.HandlePrev` | src/components/DatePicker/DatePicker.jsx:92-124 | from a steady mode starts the previous slide and records its target (month before, year before, twelve years before); in any other mode changes nothing |
| `DatePicker.Picker.HandleNext` | src/components/DatePicker/DatePicker.jsx:127-159 | from a steady mode starts the next slide and records its target (month after, year after, twelve years after); in any other mode changes nothing |
| `DatePicker.Picker.HandleMonthClick` | src/components/DatePicker/DatePicker.jsx:320-331 | zooms out from the day to the month view, from cell `month + 1` |
| `DatePicker.Picker.HandleYearClick` | src/components/DatePicker/DatePicker.jsx:333-340 | zooms out from the month to the year view from the year's cell, moving the view to the 1st of the viewed month in that year |
| `DatePicker.Picker.HandleToggleCalendar` | src/components/DatePicker/DatePicker.jsx:343-349 | opens or closes the calendar and returns to the day view |
| `DatePicker.Picker.HandleDateSelect` | src/components/DatePicker/DatePicker.jsx:314-318 | selects day `day` of the viewed month, rolled over past its end, and closes |
| `DatePicker.Picker.ClickMonthCell` | src/components/DatePicker/DatePicker.jsx:361-369 | zooms in to the clicked month of the viewed year, from that month's cell |
| `DatePicker.Picker.ClickYearCell` | src/components/DatePicker/DatePicker.jsx:441-449 | zooms in to the clicked year of the drawn block, keeping the month of the date the grid was drawn for |
| `DatePicker.Picker.OnAnimationEnd` | src/components/DatePicker/DatePicker.jsx:596-753 | each mounted grid handler settles the mode via `Settle` and, for a slide, moves the view date to the slide's target and keeps the rest |
| `DatePicker.PreviousMonthGesture` | src/components/DatePicker/DatePicker.jsx:92-101 | "previous" in the open day view followed by the end of the slide shows the 1st of the month before, in the day view |
| `DatePicker.ZoomOutToMonthsGesture` | src/components/DatePicker/DatePicker.jsx:320-331 | a click on the month title then the end of the zoom shows the month view of the same date, from that month's cell |
| `DatePicker.ZoomOutToYearsGesture` | src/components/DatePicker/DatePicker.jsx:333-340 | a click on the year title then the end of the zoom shows the year view, from the viewed year's cell, at the 1st of the viewed month |
| `DatePicker.ZoomInToDaysGesture` | src/components/DatePicker/DatePicker.jsx:361-369 | a click on a month cell then the end of the zoom shows the day view of the 1st of that month of the viewed year |
| `DatePicker.ZoomInToMonthsGesture` | src/components/DatePicker/DatePicker.jsx:441-449 | a click on a year cell then the end of the zoom shows the month view of that year, in the month of the date the grid was drawn for |
| `DatePickerV1.GenerateDaysGrid` | src/components/DatePickerV1/DatePickerV1.jsx:90-123 | empty cells up to the Sunday-first weekday of the 1st, then the days in order, each selected when it is the current date, and nothing after |
| `DatePickerV1.DaysGridLayout` | src/components/DatePickerV1/DatePickerV1.jsx:131 | the grid fits six rows of seven, and every day stands in the column whose `weekDays` heading is its own weekday |
| `DatePickerV1.DaysGridSelection` | src/components/DatePickerV1/DatePickerV1.jsx:106-109 | at most one day is highlighted, and one is exactly when the current date lies in the month shown |
| `DatePickerV1.GenerateMonthsGrid` | src/components/DatePickerV1/DatePickerV1.jsx:59-87 | the twelve months in order, the current date's month highlighted when the current date lies in the viewed year |
| `DatePickerV1.MonthsGridSelection` | src/components/DatePickerV1/DatePickerV1.jsx:67-69 | a month is highlighted exactly when the current date lies in the viewed year, and only the current date's month |
| `DatePickerV1.PrevMonthDate` | src/components/DatePickerV1/DatePickerV1.jsx:21-23 | the 1st of the month one month earlier on the month line |
| `DatePickerV1.NextMonthDate` | src/components/DatePickerV1/DatePickerV1.jsx:26-28 | the 1st of the month one month later on the month line |
| `DatePickerV1.MonthNavigationCancels` | src/components/DatePickerV1/DatePickerV1.jsx:21-28 | "‹" then "›", or the reverse, returns to the 1st of the viewed month |
| `DatePickerV1.PickerV1.constructor` | src/components/DatePickerV1/DatePickerV1.jsx:4-8 | the picker starts closed in the day view with nothing reported, both dates being the selected date or else today |
| `DatePickerV1.PickerV1.PrevMonth` | src/components/DatePickerV1/DatePickerV1.jsx:21-23 | moves the view to the 1st of the month before and changes nothing else |
| `DatePickerV1.PickerV1.NextMonth` | src/components/DatePickerV1/DatePickerV1.jsx:26-28 | moves the view to the 1st of the month after and changes nothing else |
| `DatePickerV1.PickerV1.PrevYear` | src/components/DatePickerV1/DatePickerV1.jsx:31-33 | moves the view to the 1st of the same month a year earlier |
| `DatePickerV1.PickerV1.NextYear` | src/components/DatePickerV1/DatePickerV1.jsx:36-38 | moves the view to the 1st of the same month a year later |
| `DatePickerV1.PickerV1.HandleDateSelect` | src/components/DatePickerV1/DatePickerV1.jsx:51-56 | selects the clicked day of the viewed month, reports it once and closes |
| `DatePickerV1.PickerV1.ClickMonthCell` | src/components/DatePickerV1/DatePickerV1.jsx:74-80 | the 1st of the clicked month becomes the selected and viewed date, is reported once, and the day view returns |
| `DatePickerV1.PickerV1.HandleMonthClick` | src/components/DatePickerV1/DatePickerV1.jsx:133-138 | switches to the month view and changes nothing else |
| `DatePickerV1.PickerV1.ToggleCalendar` | src/components/DatePickerV1/DatePickerV1.jsx:126-128 | opens or closes the calendar and keeps the view mode |

## Left out

- Display formatting is not modelled: `formatDisplayDate`, `formatDate`, `toLocaleDateString` and the month and year names in the headers. The fallback text "Select Date" is unreachable anyway, because the current date always defaults to today.
- CSS class strings, animation timing and the pixel maths of `setStyle` are not modelled. The transform-origin offsets are floating point and depend on measured layout. Only the row and column of the origin cell are modelled.
- The DOM height adjustment in `handleMonthClick` (`calendarRef`, `getBoundingClientRect`, `initialHeightSet`) is browser layout.
- Parsing of the `selectedDate` prop is not modelled: `new Date(selectedDate)` can give an invalid date for a value it cannot parse, but both constructors take an existing `Date`.
- The clock is a parameter: `new Date()` is the `now` argument of the constructors.
- JavaScript `Date` is modelled as integer proleptic Gregorian dates. Several of its behaviours are not modelled:
  - the time of day and the time zone;
  - the mapping of years 0 to 99 onto 1900 to 1999;
  - the range limits of `Date`;
  - roll-over for day numbers other than 1 to 31.
- `DatePicker.Picker.HandleDateSelect`: accepts only day numbers 1 to 31, the days a day grid can show. The source handler takes any number.
- `DatePicker` takes no `onChange` callback. For `DatePickerV1`, the `onChange` callback is recorded as the sequence of dates passed to it rather than run.
- `DatePicker`'s `showHiddenOverlay` prop only picks a CSS class.
- `console.log` in `DatePickerV1`'s `handleMonthClick` is output only. The month argument it logs is otherwise unused, so `DatePickerV1.PickerV1.HandleMonthClick` takes no argument.
- React scheduling is not modelled: batched updates, closures that hold stale state between renders, and animation events bubbling from child elements. Each handler is modelled as one atomic step on the current state. Every event handler of `DatePicker.Picker` except `HandleToggleCalendar` requires the calendar to be open, because everything it handles is rendered only then. The title, cell and animation-end handlers also require their element to be rendered in the current mode. A second handler of the same slide, firing in the same batch with the old mode, would commit the same target again.
- The handlers of `DatePickerV1.PickerV1` require the calendar to be open, as everything they handle is rendered only then. The title and day cells also require the day view, and the month cells the month view. `PrevYear` and `NextYear` are wired to no element (their buttons are commented out), so they carry no such guard.
- The `key` props, `data-index` attributes and the rendered text of empty day cells are not modelled.
