# CalendarView — a verified model

CalendarView is an iOS month-calendar widget. It shows a month as a grid
of 6 rows by 7 columns, Sunday first, under a header of weekday initials.
Days outside the shown month are drawn in grey. A host data source can put
a dot under any day. Tapping a cell selects its date unless the host
delegate vetoes it. A selection notifies the delegate. Swiping pages one
month forward or back. A double tap near the top jumps to today.

This project models the core of `CalendarView/CalendarView.swift` in Dafny:

- `CivilDate` — the date facts the widget takes from the platform calendar.
  - A `Date` is a point on a line of whole days, counted from 2000-01-01
    (day 0, a Saturday).
  - Its (year, month, day) reading is a `Civil` triple under the proleptic
    Gregorian calendar.
  - It defines weekday (Sunday = 1), first day of the month, adding days,
    adding months with the day clamped to the target month's length, and
    comparison at day and at month granularity.
  - The round trip between dates and triples is proved in both directions.
- `Grid` — the specification of one layout pass, as functions of the shown
  date.
  - The 42 cell dates, starting at the Sunday on or before the 1st.
  - The in-month flags, the selected flags and the weekday header.
  - The lemmas about them: the grid starts on a Sunday, holds consecutive
    distinct days and covers the whole month; the in-month cells are
    exactly as many as the month's days; each column shows one weekday; at
    most one cell is highlighted.
- `Calendar` — the view itself, a class over arrays (one entry per cell).
  - The `currentDate` and `selectedDate` observers.
  - The layout pass as the source's nested row and column loops.
  - `gotoToday`, `advanceOneMonth`, `rewindOneMonth` and the tap handler.
  - Each method is proved against the `Grid` functions.

The host's data source and delegate are function values. Each
`didSelectDate` call the view makes is appended to the log `delivered`.
The current date (`Date()`) is a parameter of the constructor and of
`GotoToday`.

Setting `currentDate` clears every selected flag, and the layout pass
never sets one again. So after paging to another month no cell is
highlighted, even when the still-selected date is in view again. The model
follows the code here (`AdvanceOneMonth`, `RewindOneMonth`: `NothingSelected`).
`Calendar.CalendarView.SelectionShown` therefore allows "exactly the cells
of the selected date" or "no cell at all".

## Model

| member | source | states |
|---|---|---|
| CivilDate.Weekday | CalendarView/CalendarView.swift:12-14 | the weekday component of a date is in 1 (Sunday) .. 7 (Saturday) |
| CivilDate.EpochIsSaturday | CalendarView/CalendarView.swift:12-14 | January 1st 2000 has weekday 7 (Saturday), which fixes Sunday as 1 |
| CivilDate.WeekdayAddDays | CalendarView/CalendarView.swift:12-14 | moving a date by k days moves its weekday k steps round the week |
| CivilDate.DaysInMonth | CalendarView/CalendarView.swift:196 | a month has 28 to 31 days; February has 29 exactly in leap years |
| CivilDate.Components | CalendarView/CalendarView.swift:17 | the (year, month, day) reading of any date is a well-formed triple |
| CivilDate.DateOfComponents | CalendarView/CalendarView.swift:17 | building a date from a date's own components gives that date back |
| CivilDate.ComponentsOfDateOf | CalendarView/CalendarView.swift:17 | `DateOf` (`date(from:)`): reading the components of the date built from a triple gives the triple |
| CivilDate.FromDayNumberIsInverse | CalendarView/CalendarView.swift:17 | the triple found for a day number has that day number |
| CivilDate.DayNumberInjective | CalendarView/CalendarView.swift:17 | two distinct triples never name the same day |
| CivilDate.DaysBeforeYearClosedForm | CalendarView/CalendarView.swift:17 | year-by-year counting of days agrees with the Gregorian leap-year rule in closed form (every 4th year, not centuries, but every 400th) |
| CivilDate.FirstDayOfMonthSpec | CalendarView/CalendarView.swift:16-18 | `FirstDayOfMonth` (`firstDayOfTheMonth`) reads as day 1 of the same year and month, and lies (day of month - 1) days earlier |
| CivilDate.AddDaysComponents | CalendarView/CalendarView.swift:227-229 | `AddDays` (`date(byAdding: .day, value: k, to:)`) for any k, negative included: the result reads as the calendar day reached by stepping k days on (or back) from the date's own components, across month and year ends |
| CivilDate.SubtractOneDay | CalendarView/CalendarView.swift:227 | `AddDays` by −1 gives the previous calendar day: the previous day of the month, else the last day of the previous month, else December 31st of the previous year |
| CivilDate.AddOneDay | CalendarView/CalendarView.swift:278 | `AddDays` by 1 gives the next calendar day: the next day of the month, else the 1st of the next month, else January 1st of the next year |
| CivilDate.AddMonthsToCivil | CalendarView/CalendarView.swift:196 | adding k months moves the month by exactly k (across years) and keeps the day of month when the target month has it, otherwise the target month's last day |
| CivilDate.AddMonthsComponents | CalendarView/CalendarView.swift:196 | `AddMonths` (`date(byAdding: .month, value: ±1, to:)`, also at :201): the date moved by k months reads as the triple moved by k months |
| CivilDate.AdvanceThenRewind | CalendarView/CalendarView.swift:195-203 | one month forward then one back returns to the same month, and to the same date when the day was not clamped |
| CivilDate.RewindThenAdvance | CalendarView/CalendarView.swift:195-203 | one month back then one forward returns to the same month, and to the same date when the day was not clamped |
| CivilDate.AddMonthsToCivilBack | CalendarView/CalendarView.swift:196 | on triples: k months and back lands in the starting month, and on the starting day when not clamped |
| CivilDate.MonthEndClamps | CalendarView/CalendarView.swift:196 | January 31st + 1 month is February 28th (29th in 2024); March 31st − 1 month is February 28th; December + 1 is January of the next year |
| CivilDate.SameDay | CalendarView/CalendarView.swift:106 | two dates compare equal at day granularity exactly when they are the same day |
| CivilDate.SameMonthIffSameFirstDay | CalendarView/CalendarView.swift:265 | `SameMonth` (`isDate(_:equalTo:toGranularity: .month)`): two dates are in the same month exactly when they have the same first day of the month |
| CivilDate.InMonthIffInRun | CalendarView/CalendarView.swift:265 | `SameMonth`: the days of a month are exactly the run of consecutive dates from its 1st, as long as the month |
| Grid.Offset | CalendarView/CalendarView.swift:226 | the number of leading cells before the 1st is below 7 |
| Grid.GridStart | CalendarView/CalendarView.swift:226-227 | the first cell is a Sunday, on or before the 1st of the month and less than a week before it |
| Grid.GridDates | CalendarView/CalendarView.swift:254-283 | the layout fills exactly 42 cells |
| Grid.InMonthFlags | CalendarView/CalendarView.swift:265 | one in-month flag per cell; which cells are set is stated by `Grid.InMonthIff` and `Grid.InMonthCount` |
| Grid.SelectionFlags | CalendarView/CalendarView.swift:105-107 | one selected flag per cell; which cells are set is stated by `Grid.SelectionAtMostOne` and `Grid.SelectionOfMonthDay` |
| Grid.WeekdayHeader | CalendarView/CalendarView.swift:228-232 | the header has one label per column |
| Grid.GridStartsOnSunday | CalendarView/CalendarView.swift:226-227 | cell 0 is a Sunday less than a week before the 1st, and the 1st sits in cell Offset |
| Grid.GridIsContiguous | CalendarView/CalendarView.swift:276-278 | each cell holds the day after the previous cell's day |
| Grid.GridIsDistinct | CalendarView/CalendarView.swift:254-283 | two cells show the same date only if they are the same cell |
| Grid.GridWindow | CalendarView/CalendarView.swift:254-283 | a date is shown iff it lies in the 42 days from the first cell |
| Grid.GridCoversMonth | CalendarView/CalendarView.swift:226-227 | every day of the shown month is in the grid, at cell Offset + day − 1 |
| Grid.InMonthIff | CalendarView/CalendarView.swift:265 | a cell is drawn as in-month iff it lies in the run of (days in month) cells starting at the 1st |
| Grid.InMonthCount | CalendarView/CalendarView.swift:265-271 | the number of in-month cells equals the number of days in the month |
| Grid.GridColumnWeekday | CalendarView/CalendarView.swift:139 | every cell in column c shows weekday c + 1, in every row |
| Grid.WeekdayHeaderIsSundayFirst | CalendarView/CalendarView.swift:139 | the weekday header reads Sunday to Saturday left to right |
| Grid.GridDependsOnMonthOnly | CalendarView/CalendarView.swift:226-227 | two current dates in the same month give the same grid and the same in-month flags |
| Grid.SelectionAtMostOne | CalendarView/CalendarView.swift:105-107 | at most one cell matches the selected date, and exactly one iff the selected date is in the grid |
| Grid.SelectionOfMonthDay | CalendarView/CalendarView.swift:105-107 | selecting a day of the shown month highlights exactly the cell at Offset + day − 1 |
| Grid.CountTrueOfRange | CalendarView/CalendarView.swift:265 | a flag sequence true exactly on [lo, hi) has hi − lo true flags |
| Grid.February2024 | CalendarView/CalendarView.swift:221-283 | February 2024 opens on Sunday January 28th, the 1st in cell 4, the 29th in cell 32, March 1st in cell 33, with 29 in-month cells |
| Grid.June2025 | CalendarView/CalendarView.swift:221-283 | June 2025 begins on a Sunday, so the 1st is cell 0, with 30 in-month cells |
| Calendar.MaySelect | CalendarView/CalendarView.swift:210 | without a delegate every tapped date may be selected (`?? true`) |
| Calendar.ShowsDot | CalendarView/CalendarView.swift:274 | without a data source no date gets a dot (`?? false`) |
| Calendar.Notified | CalendarView/CalendarView.swift:109 | setting a selected date notifies the delegate once with that date when a delegate exists; clearing notifies nobody |
| Calendar.DotFlags | CalendarView/CalendarView.swift:274 | one dot flag per cell |
| Calendar.CalendarView.constructor | CalendarView/CalendarView.swift:154-171 | waking up shows today's month laid out and highlights exactly today's cell |
| Calendar.CalendarView.SetCurrentDate | CalendarView/CalendarView.swift:88-94 | assigning the current date clears every selected flag |
| Calendar.CalendarView.SetSelectedDate | CalendarView/CalendarView.swift:96-111 | assigning the selected date highlights exactly the cells whose current date is it (none for nil), whatever the cells hold, and notifies the delegate of a date; when the cells hold the current month's grid the view is Valid afterwards |
| Calendar.CalendarView.Highlight | CalendarView/CalendarView.swift:98-107 | after the observer's loops a cell is selected iff its date equals the selected date at day granularity |
| Calendar.CalendarView.Layout | CalendarView/CalendarView.swift:221-283 | after a layout pass the cells, in-month flags, dots and header are the grid of the current month |
| Calendar.CalendarView.LayOutHeader | CalendarView/CalendarView.swift:228-232 | header label i is the weekday of the date i days after the first cell |
| Calendar.CalendarView.LayOutCells | CalendarView/CalendarView.swift:254-283 | cell i holds the date i days after the first cell, its in-month flag and its dot |
| Calendar.CalendarView.LayOutCell | CalendarView/CalendarView.swift:258-274 | one cell gets its date, its in-month flag and its dot, and no other cell changes |
| Calendar.CalendarView.GotoToday | CalendarView/CalendarView.swift:187-193 | jumping to today shows today's month and highlights exactly today's cell, notifying the delegate |
| Calendar.CalendarView.AdvanceOneMonth | CalendarView/CalendarView.swift:195-198 | paging forward shows the month one later, keeps the selected date and highlights no cell |
| Calendar.CalendarView.RewindOneMonth | CalendarView/CalendarView.swift:200-203 | paging back shows the month one earlier, keeps the selected date and highlights no cell |
| Calendar.CalendarView.DidTap | CalendarView/CalendarView.swift:205-213 | a tap on a cell selects its date and highlights only that cell unless the delegate vetoes it (no delegate allows it); a vetoed tap changes nothing |
| Calendar.CalendarView.SelectionInvariant | CalendarView/CalendarView.swift:96-111 | in every Valid state (every selection made after a layout pass) at most one cell is highlighted, and a highlighted cell shows the selected date |

## Left out

- Drawing is left out: frames, fonts, colours, the dot glyph and the cell's day-number label. The model keeps only what decides them: the date, in-month flag and dot flag of each cell.
- The month label (`DateFormatter` with "MMM YYYY") and the weekday initials ("EEEEE") are left out as locale formatting. "YYYY" is the week-based year, so near New Year the label can show the neighbouring year (late December 2025 would read "Dec 2026"); this follows from reading the pattern and is not modelled. The header is modelled as the weekday number each label is formatted from.
- Gesture recognisers are left out. `maybeGotoToday`'s hit test (a tap less than 40 points from the top) is geometry; the model starts from `GotoToday`, and a tap from `DidTap` with the tapped cell's index. An index outside the grid stands for a tap whose view is not a cell.
- `setNeedsLayout` schedules a layout pass for later. The model runs that pass at once, at the end of `AdvanceOneMonth` and `RewindOneMonth`. With the deferred pass, a date selected after paging but before the pass is highlighted against the old grid, and the pass, which rewrites cell dates but never selected flags, can leave the highlight on a cell that now shows another date (February 2024, advance, select March 5th: cell 37 is highlighted and then shows April 2nd). `SetSelectedDate` itself is stated for any cell contents, but `SelectionInvariant` holds only for states where the layout has run.
- Time of day, time zones and the user's locale and calendar settings are left out. A date is a whole day in the proleptic Gregorian calendar with Sunday as weekday 1.
- The platform's Gregorian calendar switches to Julian dates before 1582-10-15. The model does not follow that switch.
- `init(coder:)` only traps and is left out. The cell view's `init` and `layoutSubviews` are geometry.
- Calendar.CalendarView.SelectionShown: after paging, the kept selection is not shown again even when its date is back in the grid. This is the source's behaviour, so the invariant admits "no cell highlighted" besides "the cells of the selected date".
