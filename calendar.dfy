/**
 * The calendar session: the six pieces of state the top-level component
 * keeps and the handlers that change them. The wall clock (`new Date()` for
 * the initial dates) and the id source (`Date.now()` for a new event) are
 * parameters.
 */
module Calendar {
  import opened Dates
  import opened DateKey
  import opened Text
  import opened Events
  import opened CalendarDay
  import opened CalendarGrid

  class HebrewCalendar {
    /** The date whose month is shown. */
    var currentDate: Date
    /** The day whose events are listed. */
    var selectedDate: Date
    var events: Store
    var showEventForm: bool
    var newEventTitle: string
    var newEventTime: string

    /** Both dates are dates a JavaScript `Date` can hold. */
    ghost predicate Valid()
      reads this
    {
      Dates.Valid(currentDate) && Dates.Valid(selectedDate)
    }

    /** Initial state: both dates are `now`, no events, the form closed and empty. */
    constructor (now: Date)
      requires Dates.Valid(now)
      ensures Valid()
      ensures currentDate == now && selectedDate == now && events == map[]
      ensures !showEventForm && newEventTitle == "" && newEventTime == ""
    {
      currentDate := now;
      selectedDate := now;
      events := map[];
      showEventForm := false;
      newEventTitle := "";
      newEventTime := "";
    }

    /** `events[formatDateKey(selectedDate)] || []`: the list the events panel shows. */
    function SelectedDateEvents(): seq<Event>
      reads this
    {
      EventsFor(events, FormatDateKey(selectedDate))
    }

    /** `navigateMonth`: `setMonth(getMonth() + direction)` on a copy of the shown date. */
    method NavigateMonth(direction: int)
      requires Valid()
      modifies this
      ensures Valid()
      ensures currentDate == SetMonth(old(currentDate), old(currentDate.month0) + direction)
      ensures selectedDate == old(selectedDate) && events == old(events)
      ensures showEventForm == old(showEventForm)
      ensures newEventTitle == old(newEventTitle) && newEventTime == old(newEventTime)
    {
      var month := currentDate.month0 + direction;
      var moved := SetMonth(currentDate, month);
      NormalizeCorrect(currentDate.year + month / 12, month % 12, currentDate.day);
      assert Dates.Valid(moved);
      currentDate := moved;
    }

    /** `selectDate`: `new Date(year, month, day)` in the shown month. */
    method SelectDate(day: int)
      requires Valid()
      modifies this
      ensures Valid()
      ensures selectedDate == NewDate(old(currentDate.year), old(currentDate.month0), day)
      ensures currentDate == old(currentDate) && events == old(events)
      ensures showEventForm == old(showEventForm)
      ensures newEventTitle == old(newEventTitle) && newEventTime == old(newEventTime)
    {
      var year := ConstructorYear(currentDate.year) + currentDate.month0 / 12;
      NormalizeCorrect(year, currentDate.month0 % 12, day);
      selectedDate := NewDate(currentDate.year, currentDate.month0, day);
    }

    /**
     * `addEvent`: with a title that is not blank, appends an event with the
     * given id, the trimmed title and the time (or the default time) to the
     * selected day's list, then clears and closes the form; with a blank title
     * it does nothing.
     */
    method AddEvent(id: int)
      requires Valid()
      modifies this
      ensures Valid()
      ensures currentDate == old(currentDate) && selectedDate == old(selectedDate)
      ensures Trim(old(newEventTitle)) == "" ==>
                events == old(events) && showEventForm == old(showEventForm)
                && newEventTitle == old(newEventTitle) && newEventTime == old(newEventTime)
      ensures Trim(old(newEventTitle)) != "" ==>
                events == Append(old(events), FormatDateKey(old(selectedDate)),
                                 Event(id, Trim(old(newEventTitle)), EventTime(old(newEventTime))))
                && !showEventForm && newEventTitle == "" && newEventTime == ""
    {
      if Trim(newEventTitle) != "" {
        var dateKey := FormatDateKey(selectedDate);
        var newEvent := Event(id, Trim(newEventTitle), EventTime(newEventTime));
        events := Append(events, dateKey, newEvent);
        newEventTitle := "";
        newEventTime := "";
        showEventForm := false;
      }
    }

    /** `removeEvent`: drops every event with that id from the selected day's list. */
    method RemoveEvent(eventId: int)
      requires Valid()
      modifies this
      ensures Valid()
      ensures events == Remove(old(events), FormatDateKey(old(selectedDate)), eventId)
      ensures currentDate == old(currentDate) && selectedDate == old(selectedDate)
      ensures showEventForm == old(showEventForm)
      ensures newEventTitle == old(newEventTitle) && newEventTime == old(newEventTime)
    {
      events := Remove(events, FormatDateKey(selectedDate), eventId);
    }

    /** `handleCancelForm`: closes the form and clears its fields. */
    method HandleCancelForm()
      requires Valid()
      modifies this
      ensures Valid()
      ensures !showEventForm && newEventTitle == "" && newEventTime == ""
      ensures currentDate == old(currentDate) && selectedDate == old(selectedDate)
      ensures events == old(events)
    {
      showEventForm := false;
      newEventTitle := "";
      newEventTime := "";
    }

    /** `onShowForm`: opens the form. */
    method ShowForm()
      requires Valid()
      modifies this
      ensures Valid()
      ensures showEventForm
      ensures currentDate == old(currentDate) && selectedDate == old(selectedDate)
      ensures events == old(events)
      ensures newEventTitle == old(newEventTitle) && newEventTime == old(newEventTime)
    {
      showEventForm := true;
    }

    /** `onTitleChange`: the form's title field. */
    method SetNewEventTitle(title: string)
      requires Valid()
      modifies this
      ensures Valid()
      ensures newEventTitle == title
      ensures currentDate == old(currentDate) && selectedDate == old(selectedDate)
      ensures events == old(events) && showEventForm == old(showEventForm)
      ensures newEventTime == old(newEventTime)
    {
      newEventTitle := title;
    }

    /** `onTimeChange`: the form's time field. */
    method SetNewEventTime(time: string)
      requires Valid()
      modifies this
      ensures Valid()
      ensures newEventTime == time
      ensures currentDate == old(currentDate) && selectedDate == old(selectedDate)
      ensures events == old(events) && showEventForm == old(showEventForm)
      ensures newEventTitle == old(newEventTitle)
    {
      newEventTime := time;
    }
  }

  // ---------------------------------------------------------------------------
  // Moving by a month

  /** The month `setMonth(month0 + direction)` aims at, with the year carried by floor division. */
  function TargetMonth(date: Date, direction: int): (t: (int, int))
    requires 0 <= date.month0 < 12
    ensures 0 <= t.1 < 12
    ensures direction == 1 ==> t == NextMonth(date.year, date.month0)
    ensures direction == -1 ==> t == PrevMonth(date.year, date.month0)
  {
    var month := date.month0 + direction;
    (date.year + month / 12, month % 12)
  }

  /** When the day fits the target month, moving keeps the day of the month. */
  lemma NavigateKeepsDay(date: Date, direction: int)
    requires Dates.Valid(date)
    requires date.day <= MonthLength(TargetMonth(date, direction).0, TargetMonth(date, direction).1)
    ensures var t := TargetMonth(date, direction);
      SetMonth(date, date.month0 + direction) == Date(t.0, t.1, date.day)
  {
  }

  /**
   * When the day is past the end of the target month, the date spills into the
   * month after it by the excess (at most three days, as a day is at most 31
   * and a month at least 28 days long).
   */
  lemma NavigateSpills(date: Date, direction: int)
    requires Dates.Valid(date)
    requires date.day > MonthLength(TargetMonth(date, direction).0, TargetMonth(date, direction).1)
    ensures var t := TargetMonth(date, direction);
      var after := NextMonth(t.0, t.1);
      var excess := date.day - MonthLength(t.0, t.1);
      && 1 <= excess <= 3
      && SetMonth(date, date.month0 + direction) == Date(after.0, after.1, excess)
  {
    var t := TargetMonth(date, direction);
    var after := NextMonth(t.0, t.1);
    var excess := date.day - MonthLength(t.0, t.1);
    assert Normalize(after.0, after.1, excess) == Date(after.0, after.1, excess);
  }

  /** January 31st, one month on: March 3rd in a common year, March 2nd in a leap year. */
  lemma JanuaryThirtyFirstPlusOne()
    ensures SetMonth(Date(2025, 0, 31), 0 + 1) == Date(2025, 2, 3)
    ensures SetMonth(Date(2024, 0, 31), 0 + 1) == Date(2024, 2, 2)
  {
    NavigateSpills(Date(2025, 0, 31), 1);
    NavigateSpills(Date(2024, 0, 31), 1);
  }

  // ---------------------------------------------------------------------------
  // Grid and session together

  /**
   * Clicking a day cell of the shown month and selecting the day it reports
   * marks exactly that cell as selected (for years `new Date` takes literally).
   */
  lemma SelectingACellSelectsIt(currentDate: Date, selectedDate: Date, events: Store, today: Date, k: int)
    requires Dates.Valid(currentDate) && !(0 <= currentDate.year <= 99)
    requires 0 <= k < |MonthCells(currentDate, selectedDate, events, today)|
    requires MonthCells(currentDate, selectedDate, events, today)[k].DayCell?
    ensures var day := Render(MonthCells(currentDate, selectedDate, events, today)[k]).clickReports;
      var selected := NewDate(currentDate.year, currentDate.month0, day);
      var cells := MonthCells(currentDate, selected, events, today);
      forall j :: 0 <= j < |cells| ==> (cells[j].DayCell? && cells[j].isSelected <==> j == k)
  {
    var cells0 := MonthCells(currentDate, selectedDate, events, today);
    var firstDay := FirstWeekday(currentDate.year, currentDate.month0);
    MonthCellAt(currentDate, selectedDate, events, today, k);
    var day := k - firstDay + 1;
    assert cells0[k].day == day;
    NewDateInMonth(currentDate.year, currentDate.month0, day);
    var selected := NewDate(currentDate.year, currentDate.month0, day);
    assert selected == Date(currentDate.year, currentDate.month0, day);
    var cells := MonthCells(currentDate, selected, events, today);
    forall j | 0 <= j < |cells| ensures cells[j].DayCell? && cells[j].isSelected <==> j == k {
      MonthCellAt(currentDate, selected, events, today, j);
    }
  }

  /**
   * Adding an event under an id not yet used on the selected day and then
   * removing that id leaves the events panel as it was.
   */
  method AddThenRemove(c: HebrewCalendar, id: int)
    requires c.Valid()
    requires !HasId(c.SelectedDateEvents(), id)
    modifies c
    ensures c.Valid()
    ensures c.SelectedDateEvents() == old(c.SelectedDateEvents())
  {
    var before := c.SelectedDateEvents();
    var key := FormatDateKey(c.selectedDate);
    var title := c.newEventTitle;
    var time := c.newEventTime;
    c.AddEvent(id);
    if Trim(title) != "" {
      AppendThenRemove(old(c.events), key, Event(id, Trim(title), EventTime(time)));
    } else {
      WithoutAbsentId(before, id);
    }
    c.RemoveEvent(id);
  }

  /** A title of spaces only adds nothing; a real title with no time gets the default time. */
  method AddEventScenario(now: Date, id: int)
    requires Dates.Valid(now)
  {
    var c := new HebrewCalendar(now);
    c.ShowForm();
    c.SetNewEventTitle("   ");
    TrimEmptyIff("   ");
    c.AddEvent(id);
    assert c.events == map[] && c.showEventForm;
    var title := "Test Meeting";
    c.SetNewEventTitle(title);
    TrimUnpadded(title);
    c.AddEvent(id);
    assert c.SelectedDateEvents() == [Event(id, title, DefaultTime)];
    assert !c.showEventForm && c.newEventTitle == "" && c.newEventTime == "";
  }
}
