/**
 * Schedule: the ordered list of weekly-recurring events a contact owns
 * (model/schedule/Schedule.java). A schedule is a value here; the Java
 * object's `events` list is the `events` sequence.
 */
module Schedules {
  import opened Wrappers
  import opened Events
  import opened Sequences
  import opened Sorting
  import opened Text

  /** The schedule holding exactly `events`, in this order; duplicates allowed. */
  datatype Schedule<E> = Schedule(events: seq<E>)

  /** EMPTY_SCHEDULE: no event recorded. */
  function EmptySchedule<E>(): (s: Schedule<E>)
    ensures |s.events| == 0
  {
    Schedule([])
  }

  /** The constructor copies the list: the schedule holds exactly those events in that order. */
  lemma ConstructorStoresEvents<E>(events: seq<E>)
    ensures GetEvents(Schedule(events)) == events
    ensures forall i :: 0 <= i < |events| ==> GetEvent(Schedule(events), i) == Some(events[i])
  {
  }

  /** getEvents: a read-only view of the stored events. */
  function GetEvents<E>(s: Schedule<E>): (r: seq<E>)
    ensures |r| == |s.events| && forall i :: 0 <= i < |r| ==> r[i] == s.events[i]
  {
    s.events
  }

  /** getEvent: the event at `index`; List.get throws outside 0 <= index < size. */
  function GetEvent<E>(s: Schedule<E>, index: int): (r: Option<E>)
    ensures r.Some? <==> 0 <= index < |s.events|
    ensures r.Some? ==> r.value == s.events[index] && r.value in s.events
  {
    if 0 <= index < |s.events| then Some(s.events[index]) else None
  }

  /** isEmpty */
  predicate IsEmpty<E>(s: Schedule<E>) {
    |GetEvents(s)| == 0
  }

  /** A schedule is empty exactly when it is EMPTY_SCHEDULE. */
  lemma IsEmptyIff<E>(s: Schedule<E>)
    ensures IsEmpty(s) <==> s == EmptySchedule()
  {
    if IsEmpty(s) {
      assert s.events == [];
    }
  }

  // ---------------------------------------------------------------------
  // isValidSchedule

  /** Every stored event passes Event.isValidEvent. */
  ghost predicate AllValid<E>(ops: EventOps<E>, events: seq<E>) {
    forall i :: 0 <= i < |events| ==> ops.isValidEvent(events[i])
  }

  /** isValidSchedule: scans the events and stops at the first invalid one. */
  method IsValidSchedule<E>(s: Schedule<E>, ops: EventOps<E>) returns (r: bool)
    ensures r <==> AllValid(ops, s.events)
    ensures !r ==> exists e :: e in s.events && !ops.isValidEvent(e)
  {
    var events := GetEvents(s);
    var i := 0;
    while i < |events|
      invariant 0 <= i <= |events|
      invariant forall k :: 0 <= k < i ==> ops.isValidEvent(events[k])
    {
      if !ops.isValidEvent(events[i]) {
        assert events[i] in s.events;
        return false;
      }
      i := i + 1;
    }
    return true;
  }

  /** The empty schedule is valid, and validity of a longer list splits over its parts. */
  lemma AllValidConcat<E>(ops: EventOps<E>, s: seq<E>, t: seq<E>)
    ensures AllValid(ops, [])
    ensures AllValid(ops, s + t) <==> AllValid(ops, s) && AllValid(ops, t)
  {
    if AllValid(ops, s) && AllValid(ops, t) {
      forall i | 0 <= i < |s + t| ensures ops.isValidEvent((s + t)[i]) {
        if i >= |s| { assert (s + t)[i] == t[i - |s|]; }
      }
    }
    if AllValid(ops, s + t) {
      forall i | 0 <= i < |s| ensures ops.isValidEvent(s[i]) {
        assert (s + t)[i] == s[i];
      }
      forall i | 0 <= i < |t| ensures ops.isValidEvent(t[i]) {
        assert (s + t)[|s| + i] == t[i];
      }
    }
  }

  // ---------------------------------------------------------------------
  // getUpcomingSchedule

  /**
   * The test applied to each stored event: it must recur on the single date
   * today + daysForward, and when daysForward is 0 it must also start
   * strictly after `now`.
   */
  predicate Included<E>(ops: EventOps<E>, e: E, today: Date, now: Time, daysForward: int) {
    && ops.willDateCollide(e, PlusDays(today, daysForward))
    && (daysForward == 0 ==> IsAfter(ops.getTime(e), now))
  }

  /** The events getUpcomingSchedule collects before sorting, in stored order. */
  function Upcoming<E>(ops: EventOps<E>, events: seq<E>, today: Date, now: Time, daysForward: int): (r: seq<E>)
    ensures |r| <= |events|
  {
    if events == [] then []
    else
      (if Included(ops, events[0], today, now, daysForward)
       then [ops.getNextRecurringEvent(events[0], today)] else [])
      + Upcoming(ops, events[1..], today, now, daysForward)
  }

  /** Appending an event adds its next occurrence at the end exactly when it passes the test. */
  lemma {:induction false} UpcomingAppend<E>(ops: EventOps<E>, events: seq<E>, e: E, today: Date, now: Time, daysForward: int)
    ensures Upcoming(ops, events + [e], today, now, daysForward)
         == Upcoming(ops, events, today, now, daysForward)
            + (if Included(ops, e, today, now, daysForward) then [ops.getNextRecurringEvent(e, today)] else [])
  {
    if events == [] {
      assert [e][1..] == [];
    } else {
      assert (events + [e])[1..] == events[1..] + [e];
      UpcomingAppend(ops, events[1..], e, today, now, daysForward);
    }
  }

  /** x is collected exactly when it is the next occurrence of some stored event that passes the test. */
  lemma {:induction false} UpcomingMember<E>(ops: EventOps<E>, events: seq<E>, today: Date, now: Time, daysForward: int, x: E)
    ensures x in Upcoming(ops, events, today, now, daysForward) <==>
      exists e :: e in events && Included(ops, e, today, now, daysForward) && x == ops.getNextRecurringEvent(e, today)
  {
    if events != [] {
      UpcomingMember(ops, events[1..], today, now, daysForward, x);
      assert forall e :: e in events <==> e == events[0] || e in events[1..];
    }
  }

  /**
   * daysForward == 0: the result holds the next occurrence of exactly those
   * events that recur today and start strictly after now.
   */
  lemma TodayMember<E>(ops: EventOps<E>, events: seq<E>, today: Date, now: Time, x: E)
    ensures x in Upcoming(ops, events, today, now, 0) <==>
      exists e :: e in events && ops.willDateCollide(e, today) && ops.getTime(e) > now
                  && x == ops.getNextRecurringEvent(e, today)
  {
    UpcomingMember(ops, events, today, now, 0, x);
  }

  /**
   * daysForward != 0: the result holds the next occurrence of exactly those
   * events that recur on the one date today + daysForward, whatever their time.
   */
  lemma LaterMember<E>(ops: EventOps<E>, events: seq<E>, today: Date, now: Time, daysForward: int, x: E)
    requires daysForward != 0
    ensures x in Upcoming(ops, events, today, now, daysForward) <==>
      exists e :: e in events && ops.willDateCollide(e, today + daysForward)
                  && x == ops.getNextRecurringEvent(e, today)
  {
    UpcomingMember(ops, events, today, now, daysForward, x);
  }

  /** The two collecting loops of getUpcomingSchedule, with the clock reads as parameters. */
  method CollectUpcoming<E>(s: Schedule<E>, ops: EventOps<E>, today: Date, now: Time, daysForward: int)
    returns (upcomingEvents: seq<E>)
    ensures upcomingEvents == Upcoming(ops, s.events, today, now, daysForward)
  {
    var nextDaysForward := PlusDays(today, daysForward);
    var events := GetEvents(s);
    upcomingEvents := [];
    if daysForward == 0 {
      var i := 0;
      while i < |events|
        invariant 0 <= i <= |events|
        invariant upcomingEvents == Upcoming(ops, events[..i], today, now, daysForward)
      {
        var event := events[i];
        if ops.willDateCollide(event, nextDaysForward) && IsAfter(ops.getTime(event), now) {
          upcomingEvents := upcomingEvents + [ops.getNextRecurringEvent(event, today)];
        }
        assert events[..i + 1] == events[..i] + [event];
        UpcomingAppend(ops, events[..i], event, today, now, daysForward);
        i := i + 1;
      }
    } else {
      var i := 0;
      while i < |events|
        invariant 0 <= i <= |events|
        invariant upcomingEvents == Upcoming(ops, events[..i], today, now, daysForward)
      {
        var event := events[i];
        if ops.willDateCollide(event, nextDaysForward) {
          upcomingEvents := upcomingEvents + [ops.getNextRecurringEvent(event, today)];
        }
        assert events[..i + 1] == events[..i] + [event];
        UpcomingAppend(ops, events[..i], event, today, now, daysForward);
        i := i + 1;
      }
    }
    assert events[..|events|] == s.events;
  }

  /**
   * getUpcomingSchedule, with the two clock reads as the parameters `today`
   * and `now`: collect the next occurrences of the events that pass the test,
   * sort them stably, and wrap them in a new schedule. `s` is a value and is not changed.
   */
  method GetUpcomingSchedule<E(!new)>(s: Schedule<E>, ops: EventOps<E>, today: Date, now: Time, daysForward: int)
    returns (r: Schedule<E>)
    requires TotalPreorder(ops.leq)
    ensures r.events == InsertionSort(ops.leq, Upcoming(ops, s.events, today, now, daysForward))
    ensures SortedBy(ops.leq, r.events)
    ensures multiset(r.events) == multiset(Upcoming(ops, s.events, today, now, daysForward))
    ensures forall v :: Filter(r.events, TiedWith(ops.leq, v))
                     == Filter(Upcoming(ops, s.events, today, now, daysForward), TiedWith(ops.leq, v))
    ensures |r.events| <= |s.events|
  {
    var upcomingEvents := CollectUpcoming(s, ops, today, now, daysForward);
    var sorted := Sort(upcomingEvents, ops.leq);
    r := Schedule(sorted);
    assert |r.events| == |multiset(r.events)| == |upcomingEvents|;
  }

  // ---------------------------------------------------------------------
  // getDailyScheduleFormat and toString

  /** One rendered line: the 1-based counter, ". ", the event's text, a newline. */
  function Line(counter: nat, text: string): string {
    NatToString(counter) + ". " + text + "\n"
  }

  /** The lines for `events`, numbered from `first`, each rendered with `format`. */
  function Numbered<E>(events: seq<E>, format: E -> string, first: nat): string {
    if events == [] then "" else Line(first, format(events[0])) + Numbered(events[1..], format, first + 1)
  }

  /** Rendering one more event adds exactly its line, with the next counter, at the end. */
  lemma {:induction false} NumberedAppend<E>(events: seq<E>, e: E, format: E -> string, first: nat)
    ensures Numbered(events + [e], format, first)
         == Numbered(events, format, first) + Line(first + |events|, format(e))
  {
    if events == [] {
      assert [e][1..] == [];
    } else {
      assert (events + [e])[1..] == events[1..] + [e];
      NumberedAppend(events[1..], e, format, first + 1);
    }
  }

  /** When no event's text contains a newline, the rendering has exactly one line per event. */
  lemma {:induction false} NumberedLineCount<E>(events: seq<E>, format: E -> string, first: nat)
    requires forall i :: 0 <= i < |events| ==> '\n' !in format(events[i])
    ensures Count(Numbered(events, format, first), '\n') == |events|
  {
    if events != [] {
      var text := format(events[0]);
      var digits := NatToString(first);
      assert '\n' !in digits;
      CountConcat(digits, ". ", '\n');
      CountConcat(digits + ". ", text, '\n');
      CountConcat(digits + ". " + text, "\n", '\n');
      NumberedLineCount(events[1..], format, first + 1);
      CountConcat(Line(first, text), Numbered(events[1..], format, first + 1), '\n');
    }
  }

  /** The numbering loop shared by getDailyScheduleFormat and toString. */
  method NumberedFormat<E>(events: seq<E>, format: E -> string) returns (r: string)
    ensures r == Numbered(events, format, 1)
  {
    var builder := "";
    var counter := 1;
    var i := 0;
    while i < |events|
      invariant 0 <= i <= |events| && counter == i + 1
      invariant builder == Numbered(events[..i], format, 1)
    {
      builder := builder + Line(counter, format(events[i]));
      assert events[..i + 1] == events[..i] + [events[i]];
      NumberedAppend(events[..i], events[i], format, 1);
      counter := counter + 1;
      i := i + 1;
    }
    assert events[..i] == events;
    r := builder;
  }

  /** getDailyScheduleFormat: "1. <daily format>\n2. ...", one line per event in stored order. */
  method DailyScheduleFormat<E>(s: Schedule<E>, ops: EventOps<E>) returns (r: string)
    ensures r == Numbered(s.events, ops.dailyScheduleFormat, 1)
    ensures s.events == [] <==> r == ""
  {
    r := NumberedFormat(s.events, ops.dailyScheduleFormat);
  }

  /** toString: the same numbered list, with each event's toString. */
  method ToString<E>(s: Schedule<E>, ops: EventOps<E>) returns (r: string)
    ensures r == Numbered(s.events, ops.eventToString, 1)
    ensures s.events == [] <==> r == ""
  {
    r := NumberedFormat(s.events, ops.eventToString);
  }

  // ---------------------------------------------------------------------
  // equals

  /** equals: List.equals on the two event lists, element by element in order. */
  predicate Equals<E(==)>(s: Schedule<E>, other: Schedule<E>) {
    && |GetEvents(other)| == |GetEvents(s)|
    && forall i :: 0 <= i < |GetEvents(s)| ==> GetEvents(other)[i] == GetEvents(s)[i]
  }

  /** Two schedules are equal exactly when they hold the same events in the same order. */
  lemma EqualsIff<E>(s: Schedule<E>, other: Schedule<E>)
    ensures Equals(s, other) <==> s.events == other.events
  {
  }

  /** Swapping two different events makes the schedule unequal to the original. */
  lemma ReorderBreaksEquality<E>(s: Schedule<E>, i: nat, j: nat)
    requires i < j < |s.events| && s.events[i] != s.events[j]
    ensures !Equals(s, Schedule(s.events[i := s.events[j]][j := s.events[i]]))
  {
    var t := Schedule(s.events[i := s.events[j]][j := s.events[i]]);
    assert GetEvents(t)[i] != GetEvents(s)[i];
  }
}
