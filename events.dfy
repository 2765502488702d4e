/**
 * The interface of an Event as Schedule and AddEventCommand use it.
 *
 * Event.java is not part of this model, so an event is a value of an
 * arbitrary type E and each of its operations is a function value in
 * EventOps. Nothing about recurrence, validation or ordering is assumed
 * beyond what each member below says.
 */
module Events {

  /** A calendar date as a day number (LocalDate.toEpochDay). */
  type Date = int

  /** A time of day as an integer that orders like LocalTime (nano of day). */
  type Time = int

  /** LocalDate.plusDays on day numbers. */
  function PlusDays(d: Date, days: int): Date {
    d + days
  }

  /** LocalTime.isAfter: strictly later in the day. */
  predicate IsAfter(t: Time, other: Time) {
    t > other
  }

  /**
   * The operations of Event that the core calls.
   *   willDateCollide(e, d)        does e recur on date d
   *   getTime(e)                   the start time of e
   *   getNextRecurringEvent(e, t)  e moved to its next occurrence as seen on date t
   *   isValidEvent(e)              Event.isValidEvent
   *   dailyScheduleFormat(e)       Event.getDailyScheduleFormat
   *   eventToString(e)             Event.toString
   *   leq(e, f)                    e.compareTo(f) <= 0, the order Collections.sort uses
   */
  datatype EventOps<!E> = EventOps(
    willDateCollide: (E, Date) -> bool,
    getTime: E -> Time,
    getNextRecurringEvent: (E, Date) -> E,
    isValidEvent: E -> bool,
    dailyScheduleFormat: E -> string,
    eventToString: E -> string,
    leq: (E, E) -> bool)
}
