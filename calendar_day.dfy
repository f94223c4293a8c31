/**
 * One cell of the month grid. A cell is either an empty placeholder before
 * the first of the month or a day; a day cell shows its number, reports that
 * number when clicked, carries exactly one of three highlight styles and a
 * dot when the day has events.
 */
module CalendarDay {

  /** The properties the grid passes to a cell (`isEmpty` selects the first alternative). */
  datatype DayProps =
    | EmptyCell
    | DayCell(day: int, isToday: bool, isSelected: bool, hasEvents: bool)

  /** The three highlight class groups of a day cell. */
  datatype Style = TodayStyle | SelectedStyle | HoverStyle

  /** What a cell renders: nothing, or a number with a click report, styles and an event dot. */
  datatype CellView =
    | Blank
    | DayView(number: int, clickReports: int, styles: set<Style>, eventDot: bool)

  /**
   * The cell's rendering. Each highlight group is switched on by its own
   * condition, as in the class list: today styling when the day is today,
   * selected styling when it is selected but not today, hover styling when it
   * is neither.
   */
  function Render(props: DayProps): (v: CellView)
    ensures props.EmptyCell? <==> v.Blank?
    ensures props.DayCell? ==> v.number == props.day && v.clickReports == props.day
    ensures props.DayCell? ==> (v.eventDot <==> props.hasEvents)
    ensures props.DayCell? && props.isToday ==> v.styles == {TodayStyle}
    ensures props.DayCell? && props.isSelected && !props.isToday ==> v.styles == {SelectedStyle}
    ensures props.DayCell? && !props.isSelected && !props.isToday ==> v.styles == {HoverStyle}
  {
    match props
    case EmptyCell => Blank
    case DayCell(day, isToday, isSelected, hasEvents) =>
      var styles :=
        (if isToday then {TodayStyle} else {})
        + (if isSelected && !isToday then {SelectedStyle} else {})
        + (if !isToday && !isSelected then {HoverStyle} else {});
      DayView(day, day, styles, hasEvents)
  }

  /** Exactly one highlight style applies to any day cell. */
  lemma ExactlyOneStyle(day: int, isToday: bool, isSelected: bool, hasEvents: bool)
    ensures |Render(DayCell(day, isToday, isSelected, hasEvents)).styles| == 1
  {
  }
}
