/**
 * The recurring-schedule records shared by the template engine, the board
 * and the data layer: slot patterns, day patterns, week patterns, templates
 * and the slot instances materialised from them.
 */
module Schedule {
  import opened Wrappers
  import opened Dates
  import Base64

  /** Template and slot-pattern ids are Latin-1 text, the domain of `btoa`. */
  type Id = s: string | Base64.IsLatin1(s)

  /** A wall-clock time of day, the parsed form of an "HH:mm" string. */
  datatype Clock = Clock(hour: int, minute: int)

  datatype SlotPattern = SlotPattern(id: Id, start: Clock, end: Clock)

  /** The `day: number | string` field: an ISO weekday number or a short weekday name. */
  datatype DaySelector = ByNumber(n: int) | ByName(name: string)

  datatype DayPattern = DayPattern(day: DaySelector, slots: seq<SlotPattern>)

  datatype WeekPattern = WeekPattern(days: seq<DayPattern>)

  /**
   * A template.  `startDate` and `endDate` are `None` when the source field
   * is missing, null or empty; `createdAt` is a timestamp.
   */
  datatype TimeSlotTemplate = TimeSlotTemplate(
    id: Id,
    name: string,
    active: bool,
    startDate: Option<Day>,
    endDate: Option<Day>,
    createdAt: int,
    weeks: seq<WeekPattern>)

  /** A date with a wall-clock time set on it (`DateTime.set({hour, minute})`). */
  datatype Stamp = Stamp(day: Day, hour: int, minute: int)

  datatype TimeSlot = TimeSlot(
    id: string,
    templateId: string,
    isBooked: bool,
    startDate: Stamp,
    endDate: Stamp,
    date: Day)
}
