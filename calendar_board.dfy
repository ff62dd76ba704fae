/**
 * The week board hook: the seven days shown from a configurable first
 * weekday, the "today" and "before today" tests against the clock, the
 * Monday-based week bounds, and the `today` state the navigation buttons
 * move a week at a time, never back past the current week.
 *
 * `DateTime.now()` is the parameter `now` wherever the hook reads the clock.
 */
module CalendarBoard {
  import opened Dates
  import opened Instants

  /** The hook's `StartOfWeek` enum, Monday = 1 .. Sunday = 7. */
  datatype WeekStart = Monday | Tuesday | Wednesday | Thursday | Friday | Saturday | Sunday

  /** The numeric value of an enum member, an ISO weekday. */
  function WeekStartValue(s: WeekStart): (n: int)
    ensures 1 <= n <= 7
  {
    match s
    case Monday => 1
    case Tuesday => 2
    case Wednesday => 3
    case Thursday => 4
    case Friday => 5
    case Saturday => 6
    case Sunday => 7
  }

  /** `luxonStart`: the enum value, with Sunday mapped to 7 (which it already is). */
  function LuxonStart(s: WeekStart): (n: int)
    ensures n == WeekStartValue(s)
  {
    if s == Sunday then 7 else WeekStartValue(s)
  }

  /**
   * `getWeekDays`: seven consecutive days from the last day on or before
   * `date` whose weekday is `startOfWeek`; every day keeps `date`'s time of day.
   */
  function GetWeekDays(date: Instant, startOfWeek: WeekStart): (days: seq<Instant>)
    ensures |days| == 7
    ensures forall i :: 0 <= i < 7 ==> days[i] == PlusDays(days[0], i)
    ensures Weekday(days[0].day) == WeekStartValue(startOfWeek)
    ensures days[0].day <= date.day < days[0].day + 7
    ensures date in days
  {
    var weekday := Weekday(date.day);
    var luxonStart := LuxonStart(startOfWeek);
    var diff := weekday - luxonStart;
    var start := PlusDays(date, -(if diff >= 0 then diff else 7 + diff));
    var days := seq(7, i requires 0 <= i < 7 => PlusDays(start, i));
    assert days[date.day - start.day] == date;
    days
  }

  /** The first board day is the only day with the configured weekday among the seven ending at `date`. */
  lemma WeekDaysStart(date: Instant, startOfWeek: WeekStart, d: Day)
    requires Weekday(d) == WeekStartValue(startOfWeek) && d <= date.day < d + 7
    ensures GetWeekDays(date, startOfWeek)[0].day == d
  {
    var s := GetWeekDays(date, startOfWeek)[0].day;
    if s <= d {
      WeekdayWithinWeek(s, d);
    } else {
      WeekdayWithinWeek(d, s);
    }
  }

  /** With Monday as first day the board days are the Monday-based week of `date`. */
  lemma MondayWeekDays(date: Instant)
    ensures GetWeekDays(date, Monday)[0].day == StartOfWeek(date.day)
  {
    WeekDaysStart(date, Monday, StartOfWeek(date.day));
  }

  /** `isToday`: the same calendar day as the clock. */
  predicate IsToday(date: Instant, now: Instant)
  {
    SameDay(date, now)
  }

  /** `isBeforeToday`: not today, and earlier than the clock. */
  predicate IsBeforeToday(date: Instant, now: Instant)
  {
    !IsToday(date, now) && Before(date, now)
  }

  /** Being before today means lying on an earlier day; today is never before today. */
  lemma IsBeforeTodayDays(date: Instant, now: Instant)
    ensures IsBeforeToday(date, now) <==> date.day < now.day
    ensures !(IsToday(date, now) && IsBeforeToday(date, now))
  {
    if !SameDay(date, now) {
      BeforeOtherDay(date, now);
    }
  }

  /** `isSameWeek`: the Monday-based week of the clock. */
  predicate IsSameWeek(date: Instant, now: Instant)
  {
    SameWeekAs(date, now)
  }

  /**
   * `getMonthsFromWeek`: the Monday-midnight start and the Sunday last
   * millisecond of `date`'s week, whatever the board's first weekday.
   */
  function GetMonthsFromWeek(date: Instant): (r: WeekBounds)
    ensures Weekday(r.startOfWeek.day) == 1 && r.startOfWeek.ms == 0
    ensures r.endOfWeek.day == r.startOfWeek.day + 6 && r.endOfWeek.ms == MsPerDay - 1
    ensures !Before(date, r.startOfWeek) && !Before(r.endOfWeek, date)
    ensures SameWeekAs(r.startOfWeek, date) && SameWeekAs(r.endOfWeek, date)
  {
    WeekBracket(date);
    WeekBounds(StartOfWeekOf(date), EndOfWeekOf(date))
  }

  /** The week bounds start on the first board day of a Monday board. */
  lemma WeekBoundsMatchMondayBoard(date: Instant)
    ensures GetMonthsFromWeek(date).startOfWeek.day == GetWeekDays(date, Monday)[0].day
  {
    MondayWeekDays(date);
  }

  // ---------------------------------------------------------------------
  // Navigation

  /** Where `handlePrevWeek` leaves `today`: unchanged while it is in the current week, one week back otherwise. */
  function PrevWeek(today: Instant, now: Instant): Instant
  {
    if IsSameWeek(today, now) then today else PlusDays(today, -7)
  }

  /** Where `handleNextWeek` leaves `today`: one week on. */
  function NextWeek(today: Instant): Instant
  {
    PlusDays(today, 7)
  }

  /** `today` lies in the week of the clock or a later one. */
  predicate NotBeforeCurrentWeek(today: Instant, now: Instant)
  {
    StartOfWeek(now.day) <= StartOfWeek(today.day)
  }

  /** Going back a week never leaves the current week behind. */
  lemma PrevWeekStays(today: Instant, now: Instant)
    requires NotBeforeCurrentWeek(today, now)
    ensures NotBeforeCurrentWeek(PrevWeek(today, now), now)
  {
    if !IsSameWeek(today, now) {
      StartOfWeekMonotone(now.day, today.day);
      StartOfWeekShift(today.day, -1);
    }
  }

  /** Going forward a week keeps `today` at or after the current week, in a later week than before. */
  lemma NextWeekStays(today: Instant, now: Instant)
    requires NotBeforeCurrentWeek(today, now)
    ensures NotBeforeCurrentWeek(NextWeek(today), now)
    ensures !IsSameWeek(NextWeek(today), now)
  {
    StartOfWeekShift(today.day, 1);
  }

  /** From the current week or later, "previous" undoes "next". */
  lemma PrevUndoesNext(today: Instant, now: Instant)
    requires NotBeforeCurrentWeek(today, now)
    ensures PrevWeek(NextWeek(today), now) == today
  {
    NextWeekStays(today, now);
  }

  /** The three buttons of the board. */
  datatype Button = Prev | Next | Today

  /** Where a sequence of button presses leaves `today`, the clock reading `now` throughout. */
  function Press(today: Instant, now: Instant, buttons: seq<Button>): Instant
    decreases |buttons|
  {
    if buttons == [] then today
    else
      var t := match buttons[0]
        case Prev => PrevWeek(today, now)
        case Next => NextWeek(today)
        case Today => now;
      Press(t, now, buttons[1..])
  }

  /** Starting at or after the current week, no sequence of presses reaches an earlier week. */
  lemma {:induction false} PressStays(today: Instant, now: Instant, buttons: seq<Button>)
    requires NotBeforeCurrentWeek(today, now)
    ensures NotBeforeCurrentWeek(Press(today, now, buttons), now)
    decreases |buttons|
  {
    if buttons != [] {
      match buttons[0]
      case Prev => PrevWeekStays(today, now); PressStays(PrevWeek(today, now), now, buttons[1..]);
      case Next => NextWeekStays(today, now); PressStays(NextWeek(today), now, buttons[1..]);
      case Today => PressStays(now, now, buttons[1..]);
    }
  }

  /** The hook's state: the date-time whose week is shown. */
  class Board {
    var today: Instant
    var weekStart: WeekStart

    /** `useState(date)`. */
    constructor (date: Instant, weekStart: WeekStart)
      ensures today == date && this.weekStart == weekStart
    {
      today := date;
      this.weekStart := weekStart;
    }

    /** A re-render with a new `weekStart` prop: `today` is kept. */
    method SetWeekStart(weekStart: WeekStart)
      modifies this
      ensures this.weekStart == weekStart && today == old(today)
    {
      this.weekStart := weekStart;
    }

    /** `handlePrevWeek`. */
    method HandlePrevWeek(now: Instant)
      modifies this
      ensures today == PrevWeek(old(today), now)
      ensures weekStart == old(weekStart)
      ensures old(NotBeforeCurrentWeek(today, now)) ==> NotBeforeCurrentWeek(today, now)
    {
      if IsSameWeek(today, now) {
        return;
      }
      if NotBeforeCurrentWeek(today, now) {
        PrevWeekStays(today, now);
      }
      today := PlusDays(today, -7);
    }

    /** `handleNextWeek`. */
    method HandleNextWeek(ghost now: Instant)
      modifies this
      ensures today == NextWeek(old(today))
      ensures weekStart == old(weekStart)
      ensures old(NotBeforeCurrentWeek(today, now)) ==> NotBeforeCurrentWeek(today, now)
    {
      if NotBeforeCurrentWeek(today, now) {
        NextWeekStays(today, now);
      }
      today := PlusDays(today, 7);
    }

    /** `handleToday`: back to the clock. */
    method HandleToday(now: Instant)
      modifies this
      ensures today == now && NotBeforeCurrentWeek(today, now) && IsSameWeek(today, now)
      ensures weekStart == old(weekStart)
    {
      today := now;
    }

    /** `weekDays`: the board days of `today`'s week. */
    function WeekDays(): (days: seq<Instant>)
      reads this
      ensures |days| == 7 && today in days
      ensures Weekday(days[0].day) == WeekStartValue(weekStart)
    {
      GetWeekDays(today, weekStart)
    }

    /** `startOfEndOfWeek`: Monday-based whatever `weekStart` is. */
    function StartOfEndOfWeek(): (r: WeekBounds)
      reads this
      ensures Weekday(r.startOfWeek.day) == 1
      ensures !Before(today, r.startOfWeek) && !Before(r.endOfWeek, today)
    {
      GetMonthsFromWeek(today)
    }
  }
}
