/**
 * The Luxon `DateTime` values the week views work with, in a single time
 * zone without daylight-saving shifts: a day number and the milliseconds
 * elapsed since that day's midnight.
 */
module Instants {
  import opened Dates

  const MsPerDay: int := 86_400_000

  datatype Moment = Moment(day: Day, ms: int)

  /** A point in time: the time of day stays inside its day. */
  type Instant = m: Moment | 0 <= m.ms < MsPerDay witness Moment(0, 0)

  /** `valueOf()`: milliseconds since the epoch. */
  function EpochMs(t: Instant): int
  {
    t.day * MsPerDay + t.ms
  }

  /** Luxon's `<` on date-times compares `valueOf()`. */
  predicate Before(a: Instant, b: Instant)
  {
    EpochMs(a) < EpochMs(b)
  }

  /** `a.hasSame(b, 'day')`. */
  predicate SameDay(a: Instant, b: Instant)
  {
    a.day == b.day
  }

  /** `a.hasSame(b, 'week')`, weeks starting on Monday. */
  predicate SameWeekAs(a: Instant, b: Instant)
  {
    SameWeek(a.day, b.day)
  }

  /** `plus({ days: n })` (and `minus`, and whole weeks as seven days): the time of day is kept. */
  function PlusDays(t: Instant, n: int): (r: Instant)
    ensures r.day == t.day + n && r.ms == t.ms
  {
    Moment(t.day + n, t.ms)
  }

  /** `startOf('day')`. */
  function StartOfDayOf(t: Instant): (r: Instant)
    ensures SameDay(r, t) && r.ms == 0
  {
    Moment(t.day, 0)
  }

  /** `startOf('week')`: midnight of the Monday of the week. */
  function StartOfWeekOf(t: Instant): (r: Instant)
    ensures Weekday(r.day) == 1 && r.ms == 0 && SameWeekAs(r, t)
  {
    InWeekOf(t.day, StartOfWeek(t.day));
    Moment(StartOfWeek(t.day), 0)
  }

  /** `endOf('week')`: the last millisecond of the Sunday of the week. */
  function EndOfWeekOf(t: Instant): (r: Instant)
    ensures Weekday(r.day) == 7 && r.ms == MsPerDay - 1 && SameWeekAs(r, t)
  {
    var monday := StartOfWeek(t.day);
    InWeekOf(t.day, monday + 6);
    Moment(monday + 6, MsPerDay - 1)
  }

  /** The `{ startOfWeek, endOfWeek }` pair of the week views. */
  datatype WeekBounds = WeekBounds(startOfWeek: Instant, endOfWeek: Instant)

  /** Date-times are ordered by day first and by time of day within a day. */
  lemma BeforeOrder(a: Instant, b: Instant)
    ensures Before(a, b) <==> a.day < b.day || (a.day == b.day && a.ms < b.ms)
  {
    var k := b.day - a.day;
    assert EpochMs(b) - EpochMs(a) == k * MsPerDay + (b.ms - a.ms);
    if k >= 1 {
      assert k * MsPerDay >= MsPerDay;
    } else if k <= -1 {
      assert k * MsPerDay <= -MsPerDay;
    }
  }

  /** On different days, "earlier" means an earlier day. */
  lemma BeforeOtherDay(a: Instant, b: Instant)
    requires !SameDay(a, b)
    ensures Before(a, b) <==> a.day < b.day
  {
    BeforeOrder(a, b);
  }

  /** The week's start and end bracket every date-time of the week. */
  lemma WeekBracket(t: Instant)
    ensures !Before(t, StartOfWeekOf(t)) && !Before(EndOfWeekOf(t), t)
    ensures EndOfWeekOf(t).day == StartOfWeekOf(t).day + 6
  {
    BeforeOrder(t, StartOfWeekOf(t));
    BeforeOrder(EndOfWeekOf(t), t);
  }

  /** Going forward a week and back again, or back and forward, returns to the same date-time. */
  lemma WeekShiftInverse(t: Instant)
    ensures PlusDays(PlusDays(t, 7), -7) == t
    ensures PlusDays(PlusDays(t, -7), 7) == t
  {
  }
}
