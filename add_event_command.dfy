/**
 * AddEventCommand (logic/commands/schedule/AddEventCommand.java): add an
 * event to the schedule of the person at a displayed index, by building an
 * edited copy of that person and putting it in the address book.
 */
module AddEventCommand {
  import opened Wrappers
  import opened Events
  import opened Schedules
  import opened Sequences

  /** A contact: the six fields Person is built from. */
  datatype Person<E> = Person(
    name: string,
    phone: string,
    email: string,
    address: string,
    schedule: Schedule<E>,
    tags: set<string>)

  /** EditPersonDescriptor: one optional replacement value per field. */
  datatype EditPersonDescriptor<E> = EditPersonDescriptor(
    name: Option<string>,
    phone: Option<string>,
    email: Option<string>,
    address: Option<string>,
    schedule: Option<Schedule<E>>,
    tags: Option<set<string>>)

  /** `new EditPersonDescriptor()`: nothing set. */
  function EmptyDescriptor<E>(): EditPersonDescriptor<E> {
    EditPersonDescriptor(None, None, None, None, None, None)
  }

  /** EditPersonDescriptor.setSchedule */
  function SetSchedule<E>(d: EditPersonDescriptor<E>, s: Schedule<E>): (r: EditPersonDescriptor<E>)
    ensures r.schedule == Some(s)
    ensures r.name == d.name && r.phone == d.phone && r.email == d.email
         && r.address == d.address && r.tags == d.tags
  {
    d.(schedule := Some(s))
  }

  /** createEditedPerson: each field from the descriptor when it is set, otherwise from the person. */
  function CreateEditedPerson<E>(p: Person<E>, d: EditPersonDescriptor<E>): (r: Person<E>)
    ensures d.name.Some? ==> r.name == d.name.value
    ensures d.name.None? ==> r.name == p.name
    ensures d.phone.Some? ==> r.phone == d.phone.value
    ensures d.phone.None? ==> r.phone == p.phone
    ensures d.email.Some? ==> r.email == d.email.value
    ensures d.email.None? ==> r.email == p.email
    ensures d.address.Some? ==> r.address == d.address.value
    ensures d.address.None? ==> r.address == p.address
    ensures d.schedule.Some? ==> r.schedule == d.schedule.value
    ensures d.schedule.None? ==> r.schedule == p.schedule
    ensures d.tags.Some? ==> r.tags == d.tags.value
    ensures d.tags.None? ==> r.tags == p.tags
  {
    Person(
      d.name.GetOr(p.name),
      d.phone.GetOr(p.phone),
      d.email.GetOr(p.email),
      d.address.GetOr(p.address),
      d.schedule.GetOr(p.schedule),
      d.tags.GetOr(p.tags))
  }

  /** An empty descriptor edits nothing. */
  lemma EmptyDescriptorKeepsPerson<E>(p: Person<E>)
    ensures CreateEditedPerson(p, EmptyDescriptor()) == p
  {
  }

  /** Applying the same descriptor a second time changes nothing more. */
  lemma CreateEditedPersonIdempotent<E>(p: Person<E>, d: EditPersonDescriptor<E>)
    ensures CreateEditedPerson(CreateEditedPerson(p, d), d) == CreateEditedPerson(p, d)
  {
  }

  /** With only the schedule set, the edited person differs from the original in the schedule alone. */
  lemma ScheduleOnlyEdit<E>(p: Person<E>, s: Schedule<E>)
    ensures CreateEditedPerson(p, SetSchedule(EmptyDescriptor(), s)) == p.(schedule := s)
  {
  }

  /** List.indexOf: the first position of x in s. */
  function IndexOf<T(==)>(s: seq<T>, x: T): (k: nat)
    requires x in s
    ensures k < |s| && s[k] == x
    ensures forall j :: 0 <= j < k ==> s[j] != x
  {
    if s[0] == x then 0 else 1 + IndexOf(s[1..], x)
  }

  /** PREDICATE_SHOW_ALL_PERSONS */
  function ShowAll<E>(p: Person<E>): bool {
    true
  }

  /**
   * The part of Model the command uses: the address book's person list and
   * the predicate that selects the displayed (filtered) list.
   */
  class Model<E(==)> {
    var persons: seq<Person<E>>
    var visible: Person<E> -> bool

    constructor (persons: seq<Person<E>>, visible: Person<E> -> bool)
      ensures this.persons == persons && this.visible == visible
    {
      this.persons := persons;
      this.visible := visible;
    }

    /** getFilteredPersonList */
    function FilteredPersonList(): seq<Person<E>>
      reads this
    {
      Filter(persons, visible)
    }

    /** setPerson: replaces the first occurrence of `target` by `edited`. */
    method SetPerson(target: Person<E>, edited: Person<E>)
      requires target in persons
      modifies this
      ensures persons == old(persons)[IndexOf(old(persons), target) := edited]
      ensures visible == old(visible)
    {
      persons := persons[IndexOf(persons, target) := edited];
    }

    /** updateFilteredPersonList(PREDICATE_SHOW_ALL_PERSONS) */
    method ShowAllPersons()
      modifies this
      ensures persons == old(persons)
      ensures visible == ShowAll
      ensures FilteredPersonList() == persons
    {
      visible := ShowAll;
      FilterAll(persons, visible);
    }
  }

  /** The errors `execute` reports. */
  datatype CommandError = InvalidPersonDisplayedIndex

  datatype CommandResult = CommandResult(feedbackToUser: string)

  /** MESSAGE_SUCCESS, "Added %1$s to %2$s's schedule", filled in. */
  function SuccessMessage(eventText: string, personName: string): string {
    "Added " + eventText + " to " + personName + "'s schedule"
  }

  /**
   * execute: `targetIndex` is the zero-based index into the displayed list,
   * `addEvent` is Schedule.addEvent. An index past the end of the displayed
   * list fails before anything changes. Otherwise the person at that index is
   * replaced in the address book by a copy whose schedule has the event added,
   * the filter is reset to show everyone, and the message names the event and
   * the person.
   */
  method Execute<E(==)>(model: Model<E>, targetIndex: nat, toAdd: E, ops: EventOps<E>,
                        addEvent: (Schedule<E>, E) -> Schedule<E>)
    returns (result: Result<CommandResult, CommandError>)
    modifies model
    ensures result.Failure? <==> targetIndex >= |old(model.FilteredPersonList())|
    ensures result.Failure? ==>
      && result.error == InvalidPersonDisplayedIndex
      && model.persons == old(model.persons)
      && model.visible == old(model.visible)
    ensures result.Success? ==>
      var personToEdit := old(model.FilteredPersonList())[targetIndex];
      var editedPerson := personToEdit.(schedule := addEvent(personToEdit.schedule, toAdd));
      && personToEdit in old(model.persons)
      && var k := IndexOf(old(model.persons), personToEdit);
      && model.persons == old(model.persons)[k := editedPerson]
      && (forall i :: 0 <= i < |model.persons| && i != k ==> model.persons[i] == old(model.persons)[i])
      && model.visible == ShowAll
      && model.FilteredPersonList() == model.persons
      && result.value == CommandResult(SuccessMessage(ops.eventToString(toAdd), personToEdit.name))
  {
    var lastShownList := model.FilteredPersonList();
    if targetIndex >= |lastShownList| {
      return Failure(InvalidPersonDisplayedIndex);
    }

    var personToEdit := lastShownList[targetIndex];
    var scheduleToEdit := addEvent(personToEdit.schedule, toAdd);

    var editPersonDescriptor := SetSchedule(EmptyDescriptor(), scheduleToEdit);
    var editedPerson := CreateEditedPerson(personToEdit, editPersonDescriptor);
    ScheduleOnlyEdit(personToEdit, scheduleToEdit);

    model.SetPerson(personToEdit, editedPerson);
    model.ShowAllPersons();
    return Success(CommandResult(SuccessMessage(ops.eventToString(toAdd), personToEdit.name)));
  }
}
