/**
 * The calendar context provider: the selected date-time, whose Monday-based
 * week the calendar shows, moved a week at a time or back to the clock
 * reading `currentDateTime` that the provider receives as a property.
 */
module CalendarContext {
  import opened Dates
  import opened Instants
  import CalendarBoard

  class Context {
    var selectedDateTime: Instant
    var currentDateTime: Instant

    /** The provider's first render: the state starts at midnight of the clock's day (`DateTime.now().startOf('day')`). */
    constructor (now: Instant, currentDateTime: Instant)
      ensures selectedDateTime == StartOfDayOf(now) && this.currentDateTime == currentDateTime
    {
      selectedDateTime := StartOfDayOf(now);
      this.currentDateTime := currentDateTime;
    }

    /** A later render with a new `currentDateTime` property; the selected date-time is state and stays. */
    method SetCurrentDateTime(currentDateTime: Instant)
      modifies this
      ensures this.currentDateTime == currentDateTime && selectedDateTime == old(selectedDateTime)
    {
      this.currentDateTime := currentDateTime;
    }

    /** `startOfEndOfWeek` of the selected date-time. */
    function StartOfEndOfWeek(): (r: WeekBounds)
      reads this
      ensures Weekday(r.startOfWeek.day) == 1 && r.startOfWeek.ms == 0
      ensures !Before(selectedDateTime, r.startOfWeek) && !Before(r.endOfWeek, selectedDateTime)
    {
      WeekBracket(selectedDateTime);
      WeekBounds(StartOfWeekOf(selectedDateTime), EndOfWeekOf(selectedDateTime))
    }

    /** `weekDays`: midnight of each of the seven days from the Monday of the selected week. */
    function WeekDays(): (days: seq<Instant>)
      reads this
      ensures |days| == 7
      ensures forall i :: 0 <= i < 7 ==> days[i].day == StartOfWeek(selectedDateTime.day) + i && days[i].ms == 0
      ensures exists i :: 0 <= i < 7 && SameDay(days[i], selectedDateTime)
    {
      var start := StartOfEndOfWeek().startOfWeek;
      var days := seq(7, i requires 0 <= i < 7 => PlusDays(start, i));
      assert SameDay(days[selectedDateTime.day - start.day], selectedDateTime);
      days
    }

    /** `isCurrentWeek`. */
    predicate IsCurrentWeek()
      reads this
    {
      SameWeekAs(selectedDateTime, currentDateTime)
    }

    /** `isToday`: the same calendar day as `currentDateTime`. */
    predicate IsToday(dateTime: Instant)
      reads this
    {
      SameDay(dateTime, currentDateTime)
    }

    /** `isBeforeToday`: false on today, otherwise earlier than `currentDateTime`; that is, on an earlier day. */
    function IsBeforeToday(dateTime: Instant): (r: bool)
      reads this
      ensures r <==> dateTime.day < currentDateTime.day
      ensures r ==> !IsToday(dateTime)
    {
      if SameDay(dateTime, currentDateTime) then false
      else
        BeforeOtherDay(dateTime, currentDateTime);
        Before(dateTime, currentDateTime)
    }

    /** `goToNextWeek`. */
    method GoToNextWeek()
      modifies this
      ensures selectedDateTime == PlusDays(old(selectedDateTime), 7) && currentDateTime == old(currentDateTime)
    {
      selectedDateTime := PlusDays(selectedDateTime, 7);
    }

    /** `goToPreviousWeek`. */
    method GoToPreviousWeek()
      modifies this
      ensures selectedDateTime == PlusDays(old(selectedDateTime), -7) && currentDateTime == old(currentDateTime)
    {
      selectedDateTime := PlusDays(selectedDateTime, -7);
    }

    /** `goToToday`: the selected week becomes the current one. */
    method GoToToday()
      modifies this
      ensures selectedDateTime == currentDateTime && currentDateTime == old(currentDateTime)
      ensures IsCurrentWeek()
    {
      selectedDateTime := currentDateTime;
    }
  }

  /** The next and previous week buttons undo each other. */
  method NextThenPrevious(c: Context)
    modifies c
    ensures c.selectedDateTime == old(c.selectedDateTime) && c.currentDateTime == old(c.currentDateTime)
  {
    c.GoToNextWeek();
    c.GoToPreviousWeek();
  }

  /** The context's week days are the days of a Monday-first board on the selected date-time, at midnight. */
  lemma WeekDaysAsBoard(c: Context, i: int)
    requires 0 <= i < 7
    ensures c.WeekDays()[i].day == CalendarBoard.GetWeekDays(c.selectedDateTime, CalendarBoard.Monday)[i].day
  {
    CalendarBoard.MondayWeekDays(c.selectedDateTime);
  }
}
