# Gregorian month calendar with a per-day event store

This project models the logic behind the calendar screen of the
`hebrew-calendar` React application. It covers three parts.

- **The calendar session** (`Calendar.jsx`) has six pieces of state: the shown
  date, the selected date, the event store, whether the event form is open,
  and the form's draft title and time. It has one handler per user action:
  move by a month, select a day, add an event, remove an event, cancel the
  form, open the form, and edit the title or the time.
- **The month grid** (`CalendarGrid.jsx`) computes how many days the shown
  month has and on which weekday it starts. It builds the cell sequence with
  two loops: blank placeholders first, then one cell per day. Each day cell
  records whether it is today, whether it is selected, and whether its day has
  events.
- **A single cell** (`CalendarDay.jsx`) chooses exactly one of the today,
  selected and hover styles, with today taking precedence. It shows an event
  dot when the day has events and reports its own day number when clicked.

A JavaScript `Date` is modelled as a `(year, month0, day)` triple in the
proleptic Gregorian calendar:

- `month0` is zero-based, as `getMonth()` returns it.
- `new Date(y, m, d)` and `setMonth` are modelled by `Dates.Normalize`. It
  walks one month at a time until the day fits the month, and it is proved to
  keep the absolute day count and to give a valid date.
- `new Date(y, …)` reads the years 0..99 as 1900..1999 (`Dates.ConstructorYear`);
  `setMonth` does not.
- The weekday comes from the day count: day 0 is 0000-01-01, which was a
  Saturday.

The event store is a `map<string, seq<Event>>` keyed by `"year-month0-day"`.
The session is a class whose handlers replace the map with an updated copy,
as the component does with `setEvents`.

Modules, one per file:

| module | file | models |
|---|---|---|
| `Dates` | `dates.dfy` | the `Date` arithmetic: month lengths, the day count, normalisation, the weekday |
| `DateKey` | `date_key.dfy` | `formatDateKey`, and a parser that shows the key loses nothing |
| `Text` | `text.dfy` | `String.prototype.trim` |
| `Events` | `events.dfy` | the store and the append and filter updates of `addEvent` and `removeEvent` |
| `CalendarDay` | `calendar_day.dfy` | a cell's rendering |
| `CalendarGrid` | `calendar_grid.dfy` | the grid functions and the `renderCalendarDays` loops |
| `Calendar` | `calendar.dfy` | the session class and its handlers |

## Model

| member | source | states |
|---|---|---|
| Dates.NormalizeCorrect | src/components/Calendar.jsx:20-21 | normalising an overflowing (year, month, day) gives a valid date with the same absolute day count as the input |
| Dates.DayNumberInjective | src/components/CalendarGrid.jsx:11-17 | two valid dates with the same day count are the same date, so the settled date is the only valid date for its day count |
| Dates.Normalize | src/components/Calendar.jsx:21 | no contract of its own: how `new Date` and `setMonth` settle an overflowing day, one month at a time; `Dates.NormalizeCorrect` states its meaning |
| Dates.NewDate | src/components/Calendar.jsx:27 | no contract of its own: `new Date(year, month, day)` as the constructor's year plus the floor-carried month, then normalised; `Dates.NewDateInMonth` and `Dates.NewDateDayZero` state what it gives |
| Dates.SetMonth | src/components/Calendar.jsx:21 | no contract of its own: `setMonth` keeps the year and the day of the month, then normalises; `Calendar.NavigateKeepsDay` and `Calendar.NavigateSpills` state what it gives |
| Dates.ConstructorYear | src/components/Calendar.jsx:27 | `new Date` reads the years 0..99 as 1900 + year and takes every other year as given, so the year it settles on is never a two-digit one |
| Dates.ConstructorYearSettled | src/components/Calendar.jsx:27 | a year the constructor has already read is read back unchanged |
| Dates.NewDateDayZero | src/components/CalendarGrid.jsx:11-13 | `new Date(y, m + 1, 0)` is the last day of month m, for every m in 0..11 including December |
| Dates.NewDateInMonth | src/components/CalendarGrid.jsx:15-17 | `new Date(y, m, d)` with d inside the month is exactly that day |
| Dates.NextMonthFirstWeekday | src/components/CalendarGrid.jsx:15-17 | the next month's first weekday is (this month's first weekday + its length) mod 7 |
| Dates.EpochIsThursday | src/components/CalendarGrid.jsx:15-17 | 1970-01-01 is day 719528 and a Thursday (`getDay()` = 4), which anchors the weekday count |
| Dates.Y2KIsSaturday | src/components/CalendarGrid.jsx:15-17 | 2000-01-01 was a Saturday |
| DateKey.FormatDateKey | src/components/Calendar.jsx:14-16 | no contract of its own: year, zero-based month and day in decimal, joined by dashes (the same definition serves src/components/CalendarGrid.jsx:19-21); `DateKey.FormatParseRoundTrip` and `DateKey.FormatDateKeyInjective` state its meaning |
| DateKey.FormatParseRoundTrip | src/components/Calendar.jsx:14-16 | parsing the key of any date with a non-negative month and day gives back that date |
| DateKey.FormatDateKeyInjective | src/components/Calendar.jsx:14-16 | distinct valid dates have distinct keys |
| Text.Trim | src/components/Calendar.jsx:32-36 | no contract of its own: the input without its leading and trailing white space; `Text.TrimShape` states its meaning |
| Text.TrimShape | src/components/Calendar.jsx:32-36 | `trim` returns a contiguous part of the input, with only white space cut from either end and no white space at its own ends |
| Text.TrimEmptyIff | src/components/Calendar.jsx:32 | a title trims to "" exactly when it is all white space, so a blank title is rejected |
| Text.TrimIdempotent | src/components/Calendar.jsx:36 | trimming the stored title again changes nothing |
| Events.EventTime | src/components/Calendar.jsx:37 | an empty time becomes "12:00"; any other time is kept; so every stored event has a non-empty time |
| Events.EventsFor | src/components/Calendar.jsx:65 | no contract of its own: `events[key] \|\| []`, the list under a key or the empty list; `Events.Append`, `Events.Remove` and `Calendar.AddThenRemove` state facts about it |
| Events.WithoutId | src/components/Calendar.jsx:55 | the filtered list keeps exactly the events whose id differs, and is no longer than the input |
| Events.WithoutIdConcat | src/components/Calendar.jsx:55 | filtering distributes over concatenation, so the kept events stay in their relative order |
| Events.WithoutIdCounts | src/components/Calendar.jsx:55 | every event with another id is kept exactly as often as before, and none with that id remains |
| Events.Append | src/components/Calendar.jsx:40-43 | the key's list gains exactly the new event at its end, the key is present, and every other key's list is unchanged |
| Events.Remove | src/components/Calendar.jsx:51-57 | the key's list holds exactly its former events without that id, the key is present, and every other key's list is unchanged |
| Events.RemoveFromEmptyDay | src/components/Calendar.jsx:55 | removing from a day with no list stores an empty list under the key |
| Events.RemoveFirstOfTwo | src/components/Calendar.jsx:55 | removing the first of two events with distinct ids leaves only the second |
| Events.AppendThenRemove | src/components/Calendar.jsx:31-57 | appending an event with an id not yet used under the key, then removing that id, restores the key's list |
| CalendarDay.Render | src/components/CalendarDay.jsx:9-27 | an empty cell renders nothing; a day cell shows and reports its own day; its dot is shown exactly when it has events; today wins over selected, and hover applies only when it is neither |
| CalendarDay.ExactlyOneStyle | src/components/CalendarDay.jsx:17-20 | every day cell carries exactly one highlight style |
| CalendarGrid.GetDaysInMonth | src/components/CalendarGrid.jsx:11-13 | the result is the Gregorian length of the month (in the constructor's year), between 28 and 31 |
| CalendarGrid.DaysInMonthTable | src/components/CalendarGrid.jsx:11-13 | 31 for months 0, 2, 4, 6, 7, 9 and 11, 30 for months 3, 5, 8 and 10, and 29 or 28 for February by the leap-year rule |
| CalendarGrid.GetFirstDayOfMonth | src/components/CalendarGrid.jsx:15-17 | the result is in 0..6 and is the weekday of the first of the month |
| CalendarGrid.NextMonthStartsAfterThisOne | src/components/CalendarGrid.jsx:11-17 | the next month's `getFirstDayOfMonth` is (this month's + `getDaysInMonth`) mod 7, in every month except December of the years -1 and 99 |
| CalendarGrid.NextMonthBreaksAfterYear99 | src/components/CalendarGrid.jsx:11-17 | December 99 is December 1999 (first weekday 3, 31 days), while January 100 starts on weekday 5, not 6 |
| CalendarGrid.IsToday | src/components/CalendarGrid.jsx:23-28 | no contract of its own: the day equals today's day and the shown month and year are today's; `CalendarGrid.NoTodayInOtherMonth` states its consequence for the grid |
| CalendarGrid.IsSelected | src/components/CalendarGrid.jsx:30-34 | no contract of its own: the day equals the selected day and the shown month and year are the selected date's; `CalendarGrid.AtMostOneSelected` and `Calendar.SelectingACellSelectsIt` state its consequences |
| CalendarGrid.DayKey | src/components/CalendarGrid.jsx:50 | no contract of its own: the key of the day in the shown month; `CalendarGrid.RenderCalendarDays` and `CalendarGrid.DotMatchesEventsPanel` tie it to the key of `new Date(year, month, day)` |
| CalendarGrid.HasEvents | src/components/CalendarGrid.jsx:51 | no contract of its own: `events[dateKey]?.length > 0`; `CalendarGrid.DotMatchesEventsPanel` states its meaning |
| CalendarGrid.MonthCells | src/components/CalendarGrid.jsx:36-66 | no contract of its own: the reference cell sequence; `CalendarGrid.RenderCalendarDays` is proved to build it and `CalendarGrid.MonthCellsLayout` states its shape |
| CalendarGrid.RenderCalendarDays | src/components/CalendarGrid.jsx:36-66 | the two loops build exactly the month's cell sequence |
| CalendarGrid.MonthCellAt | src/components/CalendarGrid.jsx:42-62 | cell j is a placeholder before the first weekday and otherwise the cell for day j - firstDay + 1 |
| CalendarGrid.MonthCellsLayout | src/components/CalendarGrid.jsx:36-66 | `firstDay` placeholders come first, then the day cells 1..n in increasing order, and the length is exactly firstDay + daysInMonth |
| CalendarGrid.DayCellsInMonth | src/components/CalendarGrid.jsx:49-61 | every day cell carries a day in 1..daysInMonth |
| CalendarGrid.NoTodayInOtherMonth | src/components/CalendarGrid.jsx:23-28 | no cell is marked as today when the shown month or year differs from today's |
| CalendarGrid.AtMostOneSelected | src/components/CalendarGrid.jsx:30-34 | at most one cell is selected; it carries the selected day of the month, and there is one only when the selected date lies in the shown month and year |
| CalendarGrid.DotMatchesEventsPanel | src/components/CalendarGrid.jsx:50-51 | a day cell has events exactly when the store's list under that day's key is not empty |
| Calendar.HebrewCalendar.constructor | src/components/Calendar.jsx:7-12 | both dates start at the clock's date, the store is empty, and the form is closed with an empty draft |
| Calendar.HebrewCalendar.NavigateMonth | src/components/Calendar.jsx:18-24 | the shown date becomes `setMonth(month + direction)` of the old one and stays valid; nothing else changes |
| Calendar.HebrewCalendar.SelectDate | src/components/Calendar.jsx:26-29 | the selected date becomes `new Date(year, month, day)` of the shown month and is valid; nothing else changes |
| Calendar.HebrewCalendar.AddEvent | src/components/Calendar.jsx:31-49 | a blank title changes nothing; otherwise the event (id, trimmed title, time or "12:00") is appended under the selected day's key, and the draft is cleared and the form closed |
| Calendar.HebrewCalendar.RemoveEvent | src/components/Calendar.jsx:51-57 | the store becomes the filtered store for the selected day's key; nothing else changes |
| Calendar.HebrewCalendar.HandleCancelForm | src/components/Calendar.jsx:59-63 | the form closes and the draft is cleared; dates and store are kept |
| Calendar.HebrewCalendar.ShowForm | src/components/Calendar.jsx:88 | the form opens; nothing else changes |
| Calendar.HebrewCalendar.SetNewEventTitle | src/components/Calendar.jsx:89 | only the draft title changes |
| Calendar.HebrewCalendar.SetNewEventTime | src/components/Calendar.jsx:90 | only the draft time changes |
| Calendar.TargetMonth | src/components/Calendar.jsx:21 | the month aimed at is in 0..11; +1 is the month after (carrying past December) and -1 the month before (carrying past January) |
| Calendar.NavigateKeepsDay | src/components/Calendar.jsx:20-21 | when the day fits the target month, moving keeps the day of the month |
| Calendar.NavigateSpills | src/components/Calendar.jsx:20-21 | when the day is past the end of the target month, the date lands 1 to 3 days into the month after it |
| Calendar.JanuaryThirtyFirstPlusOne | src/components/Calendar.jsx:20-21 | moving January 31 on by a month gives March 3 in 2025 and March 2 in 2024 |
| Calendar.SelectingACellSelectsIt | src/components/Calendar.jsx:26-29 | selecting the day that a clicked cell reports marks exactly that cell, and no other, as selected |
| Calendar.AddThenRemove | src/components/Calendar.jsx:31-65 | `addEvent` under a fresh id followed by `removeEvent` of that id leaves the events panel's list as it was |

## Left out

- `CalendarHeader.jsx` is not part of this model. It depends on the Hebrew-date library (`HDate`) and on locale formatting, and no source for either is available.
- `EventsPanel.jsx`, `EventForm.jsx`, `EventItem.jsx` and `EventList.jsx` are not part of this model. They only pass values through and format them.
- The weekday labels of the grid header are not modelled. They are constant text.
- React rendering is not modelled. That covers element keys, state batching and the Tailwind class strings; the styles are modelled as an enumeration.
- Time of day, time zones and daylight saving are not modelled; dates are whole days.
- The range limit of a JavaScript `Date` (±10^8 days) is not modelled: any integer year is accepted.
- The wall clock is a parameter. `new Date()` becomes the constructor's `now` and the grid's `today`. The source reads the clock twice to set up the two dates and once per cell in `isToday`. The model reads one `now` and one `today`, so it does not capture those reads landing on different days across midnight. The constructor's promise that both dates are equal holds only for a single reading.
- `Date.now()` is a parameter: `AddEvent` takes the new id as an argument.
- Ids are not assumed unique, so `RemoveEvent` drops every event with that id. The round trip `AddThenRemove` requires the id to be fresh for the selected day.
- `Calendar.HebrewCalendar.SelectedDateEvents` has no contract of its own. It is `Events.EventsFor` applied to the selected day's key (src/components/Calendar.jsx:65), and `Calendar.AddThenRemove` states a fact about it.
- `removeEvent` stores an empty list under the key even when the key was absent (`Events.RemoveFromEmptyDay`). So "the key is present" and "the day has events" are not the same thing. The events panel and the event dot both treat an empty list as no events.
- For the years 0..99, `new Date(y, m, d)` means the year 1900 + y, while a `Date` built otherwise can hold those years. The grid uses `new Date`, so for a shown date in those years it describes 1900 + y.
- `CalendarGrid.NextMonthStartsAfterThisOne` excludes December of the years -1 and 99. In those two months the month and the next are read in different centuries, and the relation fails (`CalendarGrid.NextMonthBreaksAfterYear99`).
- `Calendar.SelectingACellSelectsIt` is stated only for years outside 0..99. In those years the selected date is in 1900 + y while the shown date is not, so the source selects no cell.
- `CalendarGrid.DaysInMonthTable`: stated for years outside 0..99. For those two-digit years the source uses the leap-year rule of 1900 + year, which `CalendarGrid.GetDaysInMonth` states for all years.
- `DateKey.FormatParseRoundTrip`: stated for a non-negative month and day, which every date the session holds has. A negative month or day would print a second minus sign, and the key would then no longer split at the dashes.
