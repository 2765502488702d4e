# Schedule and AddEventCommand, modelled in Dafny

This project models the weekly schedule kept for each contact of the address
book, and the `addEvent` command that adds an event to one contact's schedule.

- `Schedule` (model/schedule/Schedule.java) is an ordered list of events.
  Duplicates are allowed. It supports access, an emptiness test, a validity
  check, order-sensitive equality and numbered text rendering. It also
  supports `getUpcomingSchedule(daysForward)`. That operation keeps the events
  that recur on the single date `today + daysForward`. When `daysForward` is 0
  it also requires the start time to be strictly after `now`. It maps each
  kept event to its next occurrence and sorts the result.
- `AddEventCommand.execute` (logic/commands/schedule/AddEventCommand.java)
  checks the displayed index first. It then builds an edited copy of the
  person whose schedule has the event added, and puts that copy in the address
  book. Finally it resets the filter and reports a message.

Event.java is not part of this model. An event is a value of a type parameter
`E`, and its operations are the function values of `Events.EventOps`:
`willDateCollide`, `getTime`, `getNextRecurringEvent`, `isValidEvent`,
`dailyScheduleFormat`, `eventToString`, and the comparator `leq`. The
comparator is assumed to be a total preorder, which is what `Comparable` asks
of `compareTo`. No "repeat every 7 days" arithmetic is assumed anywhere.

Dates are day numbers, so `LocalDate.plusDays` is addition. Times of day are
integers, so `LocalTime.isAfter` is `>`. The two clock reads of
`getUpcomingSchedule` (`LocalDate.now()`, `LocalTime.now()`) are the
parameters `today` and `now`. `getNextRecurringEvent` takes no argument in
Java. The model assumes that it projects the event relative to the current
date, and passes it `today` explicitly.

Files:
- `wrappers.dfy`: `Option` (Optional) and `Result` (a return or a thrown exception).
- `events.dfy`: the Event interface, dates and times.
- `sequences.dfy`: order-preserving filtering (the displayed person list, and the tied events a stable sort keeps in order).
- `sorting.dfy`: total preorders, sortedness, a stable insertion sort as reference, and the in-place sort standing for `Collections.sort`.
- `text.dfy`: decimal text of the counter, and character counting.
- `schedule.dfy`: `Schedule` and its operations.
- `add_event_command.dfy`: `Person`, `EditPersonDescriptor`, the `Model` collaborator and `execute`.

The Javadoc of `getUpcomingSchedule` (Schedule.java:38-40) speaks of "events
that are happening in the next `daysForward` days". The code tests only the
single date `today + daysForward` (Schedule.java:45, 50, 56). The model
follows the code: `Schedules.Included` tests that one date.

## Model

| member | source | states |
|---|---|---|
| `Schedules.EmptySchedule` | src/main/java/seedu/address/model/schedule/Schedule.java:18 | EMPTY_SCHEDULE holds no events |
| `Schedules.ConstructorStoresEvents` | src/main/java/seedu/address/model/schedule/Schedule.java:24-27 | a schedule built from a list returns exactly that list from getEvents, and its i-th element from getEvent(i) |
| `Schedules.GetEvents` | src/main/java/seedu/address/model/schedule/Schedule.java:34-36 | accessor: the view is the stored sequence itself, in stored order |
| `Schedules.GetEvent` | src/main/java/seedu/address/model/schedule/Schedule.java:73-75 | an event is returned iff 0 <= index < size, and it is the stored element at that index; otherwise the lookup fails |
| `Schedules.IsEmptyIff` | src/main/java/seedu/address/model/schedule/Schedule.java:92-94 | isEmpty holds iff the schedule is the empty schedule, which means no events |
| `Schedules.IsValidSchedule` | src/main/java/seedu/address/model/schedule/Schedule.java:80-87 | the result is true iff every stored event passes isValidEvent; a false result comes with an invalid event |
| `Schedules.AllValidConcat` | src/main/java/seedu/address/model/schedule/Schedule.java:80-87 | the empty schedule is valid, and a concatenation is valid iff both parts are |
| `Schedules.Upcoming` | src/main/java/seedu/address/model/schedule/Schedule.java:45-60 | the collected list is no longer than the stored list |
| `Schedules.UpcomingAppend` | src/main/java/seedu/address/model/schedule/Schedule.java:46-60 | one more stored event adds its next occurrence at the end exactly when it passes the test, and nothing otherwise |
| `Schedules.UpcomingMember` | src/main/java/seedu/address/model/schedule/Schedule.java:45-60 | x is collected iff x is the next occurrence of some stored event that passes the test |
| `Schedules.TodayMember` | src/main/java/seedu/address/model/schedule/Schedule.java:48-53 | for daysForward 0: x is collected iff it is the next occurrence of a stored event that recurs today and starts strictly after now |
| `Schedules.LaterMember` | src/main/java/seedu/address/model/schedule/Schedule.java:54-60 | for daysForward not 0: x is collected iff it is the next occurrence of a stored event that recurs on today + daysForward, with no time-of-day test |
| `Schedules.CollectUpcoming` | src/main/java/seedu/address/model/schedule/Schedule.java:45-60 | the two branch loops collect exactly the events the spec function `Upcoming` defines, in stored order |
| `Schedules.GetUpcomingSchedule` | src/main/java/seedu/address/model/schedule/Schedule.java:42-65 | the new schedule is the stable sort of the collected events. It is sorted by the event order and is a permutation of them. Events that compare equal keep their stored order. It is no longer than the receiver, which is not changed |
| `Sorting.InsertionSortSorted` | src/main/java/seedu/address/model/schedule/Schedule.java:62 | the reference stable sort returns a list sorted by the comparator |
| `Sorting.InsertionSortPermutation` | src/main/java/seedu/address/model/schedule/Schedule.java:62 | the reference stable sort returns a permutation of its input |
| `Sorting.InsertionSortStable` | src/main/java/seedu/address/model/schedule/Schedule.java:62 | the reference sort is stable: for every v, the elements tied with v appear in the same order as in the input |
| `Sorting.InsertInPlace` | src/main/java/seedu/address/model/schedule/Schedule.java:62 | one pass moves the next element left past the strictly greater ones; the prefix becomes the reference insertion of that element, and the rest is untouched |
| `Sorting.SortInPlace` | src/main/java/seedu/address/model/schedule/Schedule.java:62 | the array ends as the reference stable sort of its old contents. It is therefore sorted, a permutation of the old contents, and keeps tied elements in order |
| `Sorting.Sort` | src/main/java/seedu/address/model/schedule/Schedule.java:62 | Collections.sort on the list: the result is its stable sort, sorted, a permutation, with tied elements in input order |
| `Text.NatToString` | src/main/java/seedu/address/model/schedule/Schedule.java:101 | the counter's text is non-empty decimal digits with no leading zero |
| `Text.ParseNatToString` | src/main/java/seedu/address/model/schedule/Schedule.java:101 | the counter's text reads back as the same number, so different counters give different text |
| `Schedules.NumberedFormat` | src/main/java/seedu/address/model/schedule/Schedule.java:97-105 | the builder loop produces the numbered rendering, counting from 1 |
| `Schedules.NumberedAppend` | src/main/java/seedu/address/model/schedule/Schedule.java:99-103 | one more event adds exactly one line `"<counter>. <text>\n"` at the end, with the next counter |
| `Schedules.NumberedLineCount` | src/main/java/seedu/address/model/schedule/Schedule.java:96-106 | if no event text has a newline, the rendering has exactly one newline per event |
| `Schedules.DailyScheduleFormat` | src/main/java/seedu/address/model/schedule/Schedule.java:96-106 | the result is the 1-based numbered list of the events' daily formats, in stored order; it is empty iff the schedule is |
| `Schedules.ToString` | src/main/java/seedu/address/model/schedule/Schedule.java:131-142 | the same numbered list, built from each event's toString |
| `Schedules.EqualsIff` | src/main/java/seedu/address/model/schedule/Schedule.java:111-123 | two schedules are equal iff their event sequences are equal, element by element in order |
| `Schedules.ReorderBreaksEquality` | src/main/java/seedu/address/model/schedule/Schedule.java:111-123 | swapping two different events gives a schedule that is not equal to the original |
| `AddEventCommand.SetSchedule` | src/main/java/seedu/address/logic/commands/schedule/AddEventCommand.java:76-77 | the descriptor's schedule is set and no other field changes |
| `AddEventCommand.CreateEditedPerson` | src/main/java/seedu/address/logic/commands/schedule/AddEventCommand.java:90-101 | each of the six fields comes from the descriptor when present, otherwise from the original person |
| `AddEventCommand.EmptyDescriptorKeepsPerson` | src/main/java/seedu/address/logic/commands/schedule/AddEventCommand.java:93-100 | with nothing set, the edited person equals the original |
| `AddEventCommand.CreateEditedPersonIdempotent` | src/main/java/seedu/address/logic/commands/schedule/AddEventCommand.java:93-100 | applying the same descriptor twice gives the same person as applying it once |
| `AddEventCommand.ScheduleOnlyEdit` | src/main/java/seedu/address/logic/commands/schedule/AddEventCommand.java:76-78 | with only the schedule set, the edited person keeps the original name, phone, email, address and tags |
| `Sequences.Filter` | src/main/java/seedu/address/logic/commands/schedule/AddEventCommand.java:66 | the displayed list is no longer than the book. A person is displayed iff they are in the book and pass the filter |
| `Sequences.FilterAppend` | src/main/java/seedu/address/logic/commands/schedule/AddEventCommand.java:66 | filtering keeps book order: one more book entry is displayed, last, iff it passes the filter |
| `Sequences.FilterAll` | src/main/java/seedu/address/logic/commands/schedule/AddEventCommand.java:81 | a filter that accepts everyone displays the whole book |
| `AddEventCommand.IndexOf` | src/main/java/seedu/address/logic/commands/schedule/AddEventCommand.java:80 | the position found holds the target, and no earlier position does |
| `AddEventCommand.Model.SetPerson` | src/main/java/seedu/address/logic/commands/schedule/AddEventCommand.java:80 | the first occurrence of the target is replaced by the edited person; the filter is unchanged |
| `AddEventCommand.Model.ShowAllPersons` | src/main/java/seedu/address/logic/commands/schedule/AddEventCommand.java:81 | the book is unchanged and the displayed list becomes the whole book |
| `AddEventCommand.Execute` | src/main/java/seedu/address/logic/commands/schedule/AddEventCommand.java:63-84 | fails with the invalid-index error, changing nothing, iff the index is past the displayed list. Otherwise only the target's entry in the book is replaced, by the target with its schedule after addEvent. The filter predicate then becomes PREDICATE_SHOW_ALL_PERSONS, so everyone is displayed, and the message is MESSAGE_SUCCESS with the event's text and the original person's name |

## Left out

- FreeScheduleCommand.java: the command only hands a predicate to the model and reports a count. The free/busy rule lives in IsPersonFreePredicate.java, which is not part of this model.
- Event internals: recurrence arithmetic, the validation formats, the comparator, and the fractional duration. Event.java is not part of this model, so these are abstract function values. The comparator's only assumed property is being a total preorder.
- The wall clock: `LocalDate.now()` and `LocalTime.now()` are the parameters `today` and `now`. The clock read inside `getNextRecurringEvent` is its `today` argument.
- `Schedule.addEvent`: it is called at AddEventCommand.java:74 but is not defined in Schedule.java, so `Execute` takes it as an abstract function and nothing is proved about it.
- Aliasing: in Java, `addEvent` changes the shared Schedule object in place (AddEventCommand.java:74). This object is reachable from the old Person and from the edited Person. It is also reachable from every other Person holding the same object, and possibly from the static `EMPTY_SCHEDULE` (Schedule.java:18), whose `isEmpty()` would then turn false. The model treats schedules as values, so the old person's value does not see the new event. `Execute` looks up the old value in the book, not the mutated one.
- AddEventCommand.Execute: "every other entry of the book is unchanged" holds only under the value model of schedules. In Java, another person sharing the target's Schedule object, or `EMPTY_SCHEDULE`, also gains the event.
- Schedules.GetUpcomingSchedule: does not model the exception `Collections.sort` may throw for a comparator that is not a total preorder; that case is excluded by the precondition. Insertion sort stands for Java's merge sort. Both are stable, and with a total preorder a stable sort's result is determined by its input, but that uniqueness is not proved here.
- AddEventCommand.Model.SetPerson: requires the target to be in the book. The exception Java's `setPerson` throws for a missing person is not modelled, because `Execute` always passes a person taken from the displayed list.
- Events.PlusDays: dates are unbounded day numbers. The `DateTimeException` that `plusDays` throws beyond LocalDate's range is not modelled.
- The `Model`, `Index`, `Messages` and `CommandResult` collaborators are abstracted. `Model` is a person list plus the predicate that selects the displayed list. `setPerson` replaces the first equal person. The address book's duplicate-person checks are not part of this model. The invalid-index message text is defined in Messages.java, which is not part of this model, so it is the constructor `InvalidPersonDisplayedIndex`. The zero-based index is a `nat`.
- `System.out.println` (AddEventCommand.java:82), the `MESSAGE_USAGE`, `EMPTY_SCHEDULE_MESSAGE` and `MESSAGE_CONSTRAINTS` strings, `hashCode`, the null checks, and the identity and `instanceof` short-circuits of `equals`. Event equality is value equality on `E`.
- Decimal text of the counter: `Text.NatToString` gives the digits `%s` prints for a non-negative int. Java's 32-bit counter overflow is not modelled.
