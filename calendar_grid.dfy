/**
 * The month grid: how many days the shown month has, on which weekday it
 * starts, which day is today and which is selected, and the sequence of
 * cells (leading placeholders, then one cell per day) handed to the cells.
 *
 * `currentDate` is the date whose month is shown; `today` stands for the
 * wall clock (`new Date()`), which is a parameter here.
 */
module CalendarGrid {
  import opened Dates
  import opened DateKey
  import opened Events
  import opened CalendarDay

  /** `new Date(year, month + 1, 0).getDate()`: day 0 of the next month is the last day of this one. */
  function GetDaysInMonth(date: Date): (n: int)
    requires 0 <= date.month0 < 12
    ensures n == MonthLength(ConstructorYear(date.year), date.month0)
    ensures 28 <= n <= 31
  {
    NewDateDayZero(date.year, date.month0);
    NewDate(date.year, date.month0 + 1, 0).day
  }

  /** `new Date(year, month, 1).getDay()`. */
  function GetFirstDayOfMonth(date: Date): (w: int)
    requires 0 <= date.month0 < 12
    ensures 0 <= w < 7
    ensures w == FirstWeekday(ConstructorYear(date.year), date.month0)
  {
    NewDateInMonth(date.year, date.month0, 1);
    Weekday(DayNumber(NewDate(date.year, date.month0, 1)))
  }

  /** `day === today.getDate()` and the shown month and year are today's. */
  predicate IsToday(day: int, currentDate: Date, today: Date) {
    day == today.day && currentDate.month0 == today.month0 && currentDate.year == today.year
  }

  /** `day === selectedDate.getDate()` and the shown month and year are the selected date's. */
  predicate IsSelected(day: int, currentDate: Date, selectedDate: Date) {
    day == selectedDate.day && currentDate.month0 == selectedDate.month0
    && currentDate.year == selectedDate.year
  }

  /**
   * The key a day cell looks up: that of day `day` of the shown month, which is
   * what `new Date(year, month, day)` gives for every day of the month (`NewDateInMonth`).
   */
  function DayKey(currentDate: Date, day: int): string {
    FormatDateKey(Date(ConstructorYear(currentDate.year), currentDate.month0, day))
  }

  /** `events[dateKey]?.length > 0`. */
  predicate HasEvents(events: Store, currentDate: Date, day: int) {
    var key := DayKey(currentDate, day);
    key in events && |events[key]| > 0
  }

  function DayCellFor(day: int, currentDate: Date, selectedDate: Date, events: Store, today: Date): DayProps {
    DayCell(day, IsToday(day, currentDate, today), IsSelected(day, currentDate, selectedDate),
            HasEvents(events, currentDate, day))
  }

  /** The cells of the month: one placeholder per weekday before the first, then days 1..n. */
  function MonthCells(currentDate: Date, selectedDate: Date, events: Store, today: Date): seq<DayProps>
    requires 0 <= currentDate.month0 < 12
  {
    var firstDay := FirstWeekday(ConstructorYear(currentDate.year), currentDate.month0);
    var daysInMonth := MonthLength(ConstructorYear(currentDate.year), currentDate.month0);
    seq(firstDay, _ => EmptyCell)
    + seq(daysInMonth, i => DayCellFor(i + 1, currentDate, selectedDate, events, today))
  }

  /** `renderCalendarDays`: the two loops that push the placeholders and then the day cells. */
  method RenderCalendarDays(currentDate: Date, selectedDate: Date, events: Store, today: Date)
    returns (days: seq<DayProps>)
    requires 0 <= currentDate.month0 < 12
    ensures days == MonthCells(currentDate, selectedDate, events, today)
  {
    var daysInMonth := GetDaysInMonth(currentDate);
    var firstDay := GetFirstDayOfMonth(currentDate);
    days := [];
    for i := 0 to firstDay
      invariant |days| == i
      invariant forall k :: 0 <= k < i ==> days[k] == EmptyCell
    {
      days := days + [EmptyCell];
    }
    var day := 1;
    while day <= daysInMonth
      invariant 1 <= day <= daysInMonth + 1
      invariant |days| == firstDay + day - 1
      invariant forall k :: 0 <= k < firstDay ==> days[k] == EmptyCell
      invariant forall k :: firstDay <= k < |days| ==>
                  days[k] == DayCellFor(k - firstDay + 1, currentDate, selectedDate, events, today)
    {
      NewDateInMonth(currentDate.year, currentDate.month0, day);
      var dateKey := FormatDateKey(NewDate(currentDate.year, currentDate.month0, day));
      var hasEvents := dateKey in events && |events[dateKey]| > 0;
      var cell := DayCell(day, IsToday(day, currentDate, today), IsSelected(day, currentDate, selectedDate), hasEvents);
      assert cell == DayCellFor(day, currentDate, selectedDate, events, today);
      days := days + [cell];
      day := day + 1;
    }
    MonthCellsAt(currentDate, selectedDate, events, today, firstDay, days);
  }

  /** A sequence that agrees with the month's cells position by position is the month's cells. */
  lemma MonthCellsAt(currentDate: Date, selectedDate: Date, events: Store, today: Date,
                     firstDay: int, days: seq<DayProps>)
    requires 0 <= currentDate.month0 < 12
    requires firstDay == FirstWeekday(ConstructorYear(currentDate.year), currentDate.month0)
    requires |days| == firstDay + MonthLength(ConstructorYear(currentDate.year), currentDate.month0)
    requires forall k :: 0 <= k < firstDay ==> days[k] == EmptyCell
    requires forall k :: firstDay <= k < |days| ==>
               days[k] == DayCellFor(k - firstDay + 1, currentDate, selectedDate, events, today)
    ensures days == MonthCells(currentDate, selectedDate, events, today)
  {
    var cells := MonthCells(currentDate, selectedDate, events, today);
    assert |cells| == |days|;
    forall k | 0 <= k < |days| ensures days[k] == cells[k] {
      MonthCellAt(currentDate, selectedDate, events, today, k);
    }
  }

  /** One cell of the month: a placeholder before the first weekday, else the day it stands for. */
  lemma MonthCellAt(currentDate: Date, selectedDate: Date, events: Store, today: Date, j: int)
    requires 0 <= currentDate.month0 < 12
    requires 0 <= j < |MonthCells(currentDate, selectedDate, events, today)|
    ensures var firstDay := FirstWeekday(ConstructorYear(currentDate.year), currentDate.month0);
      MonthCells(currentDate, selectedDate, events, today)[j]
      == if j < firstDay then EmptyCell else DayCellFor(j - firstDay + 1, currentDate, selectedDate, events, today)
  {
  }

  // ---------------------------------------------------------------------------
  // Properties of the month and of the grid

  /** Month lengths for years that `new Date` takes literally (outside 0..99). */
  lemma DaysInMonthTable(date: Date)
    requires 0 <= date.month0 < 12 && !(0 <= date.year <= 99)
    ensures date.month0 in {0, 2, 4, 6, 7, 9, 11} ==> GetDaysInMonth(date) == 31
    ensures date.month0 in {3, 5, 8, 10} ==> GetDaysInMonth(date) == 30
    ensures date.month0 == 1 && IsLeapYear(date.year) ==> GetDaysInMonth(date) == 29
    ensures date.month0 == 1 && !IsLeapYear(date.year) ==> GetDaysInMonth(date) == 28
  {
  }

  /**
   * The next month starts on the weekday that follows this month's last day.
   * This holds in every month except December of the years -1 and 99: there
   * `new Date` reads the one year as 1900 + year and the other literally.
   */
  lemma NextMonthStartsAfterThisOne(date: Date)
    requires 0 <= date.month0 < 12
    requires !(date.month0 == 11 && (date.year == -1 || date.year == 99))
    ensures var next := NextMonth(date.year, date.month0);
      GetFirstDayOfMonth(Date(next.0, next.1, 1))
      == (GetFirstDayOfMonth(date) + GetDaysInMonth(date)) % 7
  {
    var year := ConstructorYear(date.year);
    NextMonthFirstWeekday(year, date.month0);
    var next := NextMonth(date.year, date.month0);
    assert (ConstructorYear(next.0), next.1) == NextMonth(year, date.month0);
  }

  /**
   * December of the year 99 is read as December 1999, which starts on a
   * Wednesday and ends on a Friday, but the month after it is January of the
   * year 100, read literally, which also starts on a Friday, not a Saturday.
   */
  lemma NextMonthBreaksAfterYear99()
    ensures GetFirstDayOfMonth(Date(99, 11, 1)) == 3 && GetDaysInMonth(Date(99, 11, 1)) == 31
    ensures GetFirstDayOfMonth(Date(100, 0, 1)) == 5
    ensures GetFirstDayOfMonth(Date(100, 0, 1))
         != (GetFirstDayOfMonth(Date(99, 11, 1)) + GetDaysInMonth(Date(99, 11, 1))) % 7
  {
    assert DayNumber(Date(1999, 11, 1)) == 730454;
    assert DayNumber(Date(100, 0, 1)) == 36525;
  }

  /** Placeholders first, then the days 1..n in increasing order, and nothing after the last day. */
  lemma MonthCellsLayout(currentDate: Date, selectedDate: Date, events: Store, today: Date)
    requires 0 <= currentDate.month0 < 12
    ensures var cells := MonthCells(currentDate, selectedDate, events, today);
      var firstDay := GetFirstDayOfMonth(currentDate);
      && |cells| == firstDay + GetDaysInMonth(currentDate)
      && (forall k :: 0 <= k < firstDay ==> cells[k] == EmptyCell)
      && (forall k :: firstDay <= k < |cells| ==> cells[k].DayCell? && cells[k].day == k - firstDay + 1)
  {
    var cells := MonthCells(currentDate, selectedDate, events, today);
    var firstDay := FirstWeekday(ConstructorYear(currentDate.year), currentDate.month0);
    assert firstDay == GetFirstDayOfMonth(currentDate);
    forall k | firstDay <= k < |cells| ensures cells[k].DayCell? && cells[k].day == k - firstDay + 1 {
      MonthCellAt(currentDate, selectedDate, events, today, k);
    }
  }

  /** Every day cell reports a day of the shown month. */
  lemma DayCellsInMonth(currentDate: Date, selectedDate: Date, events: Store, today: Date)
    requires 0 <= currentDate.month0 < 12
    ensures forall cell :: cell in MonthCells(currentDate, selectedDate, events, today) && cell.DayCell? ==>
              1 <= cell.day <= GetDaysInMonth(currentDate)
  {
    var cells := MonthCells(currentDate, selectedDate, events, today);
    forall k | 0 <= k < |cells| && cells[k].DayCell? ensures 1 <= cells[k].day <= GetDaysInMonth(currentDate) {
      MonthCellAt(currentDate, selectedDate, events, today, k);
    }
  }

  /** Away from today's month no cell is marked as today. */
  lemma NoTodayInOtherMonth(currentDate: Date, selectedDate: Date, events: Store, today: Date)
    requires 0 <= currentDate.month0 < 12
    requires currentDate.month0 != today.month0 || currentDate.year != today.year
    ensures forall cell :: cell in MonthCells(currentDate, selectedDate, events, today) ==>
              !(cell.DayCell? && cell.isToday)
  {
  }

  /** At most one cell is selected, and only when the selected date lies in the shown month. */
  lemma AtMostOneSelected(currentDate: Date, selectedDate: Date, events: Store, today: Date)
    requires 0 <= currentDate.month0 < 12
    ensures var cells := MonthCells(currentDate, selectedDate, events, today);
      forall j, k :: 0 <= j < |cells| && 0 <= k < |cells|
        && cells[j].DayCell? && cells[j].isSelected && cells[k].DayCell? && cells[k].isSelected
        ==> j == k && cells[j].day == selectedDate.day
            && currentDate.month0 == selectedDate.month0 && currentDate.year == selectedDate.year
  {
    var cells := MonthCells(currentDate, selectedDate, events, today);
    forall j, k | 0 <= j < |cells| && 0 <= k < |cells|
        && cells[j].DayCell? && cells[j].isSelected && cells[k].DayCell? && cells[k].isSelected
      ensures j == k && cells[j].day == selectedDate.day
              && currentDate.month0 == selectedDate.month0 && currentDate.year == selectedDate.year
    {
      MonthCellAt(currentDate, selectedDate, events, today, j);
      MonthCellAt(currentDate, selectedDate, events, today, k);
    }
  }

  /**
   * A day cell shows the event dot exactly when the store holds a non-empty
   * list under that day's key, the same list the events panel shows once the
   * day is selected.
   */
  lemma DotMatchesEventsPanel(currentDate: Date, selectedDate: Date, events: Store, today: Date)
    requires 0 <= currentDate.month0 < 12
    ensures forall cell :: cell in MonthCells(currentDate, selectedDate, events, today) && cell.DayCell? ==>
              (cell.hasEvents
               <==> EventsFor(events, FormatDateKey(NewDate(currentDate.year, currentDate.month0, cell.day))) != [])
  {
    var cells := MonthCells(currentDate, selectedDate, events, today);
    var firstDay := FirstWeekday(ConstructorYear(currentDate.year), currentDate.month0);
    forall k | 0 <= k < |cells| && cells[k].DayCell?
      ensures cells[k].hasEvents
              <==> EventsFor(events, FormatDateKey(NewDate(currentDate.year, currentDate.month0, cells[k].day))) != []
    {
      MonthCellAt(currentDate, selectedDate, events, today, k);
      NewDateInMonth(currentDate.year, currentDate.month0, k - firstDay + 1);
    }
  }
}
