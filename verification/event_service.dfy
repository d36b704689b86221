/** The event service: CRUD over one stored list of events. Unlike the
    club context it validates its input, reports a missing id as an error,
    updates only the first matching record and keeps the caller's status.
    The stored list is passed in and the new list handed back; an error
    leaves it untouched. */
module EventService {
  import opened Wrappers
  import opened Seqs
  import opened Entities

  datatype Failure = EventNotFound | MissingRequiredFields

  /** The message each rejection carries. */
  function Message(f: Failure): (m: string)
    ensures m != ""
  {
    match f
    case EventNotFound => "Event not found"
    case MissingRequiredFields => "Missing required fields"
  }

  /** The stored list after a call, and what the call resolves or rejects with. */
  datatype Reply<T> = Reply(storage: seq<Event>, result: Result<T, Failure>)

  /** `i` is the position `findIndex(event => event.id === id)` reports. */
  predicate IsFirstMatch(events: seq<Event>, id: string, i: int) {
    0 <= i < |events| && events[i].id == id && forall j :: 0 <= j < i ==> events[j].id != id
  }

  /** `events.find(event => event.id === id)`, rejecting when absent. */
  function GetEventById(events: seq<Event>, id: string): (r: Result<Event, Failure>)
    ensures r.Ok? ==> forall i | IsFirstMatch(events, id, i) :: r.value == events[i]
    ensures r.Err? <==> forall e | e in events :: e.id != id
    ensures r.Err? ==> r.error == EventNotFound
  {
    match Find(HasId(EventId, id), events)
    case None => Err(EventNotFound)
    case Some(e) => Ok(e)
  }

  /** `events.filter(event => event.clubId === clubId)`. */
  function GetEventsByClubId(events: seq<Event>, clubId: string): (r: seq<Event>)
    ensures forall e | e in r :: e in events && e.clubId == clubId
    ensures forall e | e in events && e.clubId == clubId :: e in r
    ensures IsSubsequence(r, events)
    ensures forall e :: multiset(r)[e] == if e.clubId == clubId then multiset(events)[e] else 0
  {
    FilterKeepsOrderAndCounts(InClub(EventClubId, clubId), events);
    Filter(InClub(EventClubId, clubId), events)
  }

  /** The required-field rule: every one of these must be non-empty. */
  predicate HasRequiredFields(d: EventDraft) {
    d.name != "" && d.description != "" && d.date != "" && d.time != ""
    && d.venue != "" && d.clubId != ""
  }

  /** `{ id: generated, ...eventData, attendees: 0, status: eventData.status || 'upcoming' }`,
      appended to the stored list. */
  function CreateEvent(events: seq<Event>, d: EventDraft, generatedId: string): (r: Reply<Event>)
    ensures r.result.Err? <==> !HasRequiredFields(d)
    ensures r.result.Err? ==> r.result.error == MissingRequiredFields && r.storage == events
    ensures r.result.Ok? ==>
      && r.storage == events + [r.result.value]
      && r.result.value.attendees == 0
      && r.result.value.id == d.id.GetOr(generatedId)
      && r.result.value.clubId == d.clubId && r.result.value.name == d.name
      && r.result.value.date == d.date && r.result.value.time == d.time
      && r.result.value.description == d.description && r.result.value.venue == d.venue
      && r.result.value.image == d.image
      && (d.status.Some? && d.status.value != "" ==> r.result.value.status == d.status.value)
      && (d.status.None? || d.status == Some("") ==> r.result.value.status == "upcoming")
  {
    if !HasRequiredFields(d) then Reply(events, Err(MissingRequiredFields))
    else
      var status := if d.status.Some? && d.status.value != "" then d.status.value else "upcoming";
      var e := Event(d.id.GetOr(generatedId), d.name, d.description, d.date, d.time, d.venue,
        d.clubId, 0, status, d.image);
      Reply(events + [e], Ok(e))
  }

  /** Merges the patch into the FIRST event with that id only. */
  function UpdateEvent(events: seq<Event>, id: string, p: EventPatch): (r: Reply<Event>)
    ensures r.result.Err? <==> forall e | e in events :: e.id != id
    ensures r.result.Err? ==> r.result.error == EventNotFound && r.storage == events
    ensures r.result.Ok? ==> forall i | IsFirstMatch(events, id, i) ::
      r.result.value == MergeEvent(events[i], p) && r.storage == events[i := r.result.value]
  {
    match IndexOf(HasId(EventId, id), events)
    case None => Reply(events, Err(EventNotFound))
    case Some(i) =>
      OnlyFirstMatch(events, id, i);
      var merged := MergeEvent(events[i], p);
      Reply(events[i := merged], Ok(merged))
  }

  /** There is one first match. */
  lemma OnlyFirstMatch(events: seq<Event>, id: string, i: int)
    requires IsFirstMatch(events, id, i)
    ensures forall j | IsFirstMatch(events, id, j) :: j == i
  {
  }

  /** Removes every event with that id; rejects when nothing was removed. */
  function DeleteEvent(events: seq<Event>, id: string): (r: Reply<bool>)
    ensures r.result.Err? <==> forall e | e in events :: e.id != id
    ensures r.result.Err? ==> r.result.error == EventNotFound && r.storage == events
    ensures r.result.Ok? ==> r.result.value
    ensures forall e | e in r.storage :: e in events
    ensures r.result.Ok? ==> forall e | e in events :: e in r.storage <==> e.id != id
    ensures r.result.Ok? ==> IsSubsequence(r.storage, events)
    ensures r.result.Ok? ==> forall e :: multiset(r.storage)[e] == if e.id != id then multiset(events)[e] else 0
  {
    var kept := Filter(IdIsNot(EventId, id), events);
    FilterKeepsLength(IdIsNot(EventId, id), events);
    FilterKeepsOrderAndCounts(IdIsNot(EventId, id), events);
    if |kept| == |events| then Reply(events, Err(EventNotFound))
    else Reply(kept, Ok(true))
  }

  /** Looks the event up, then writes it back with one more attendee. */
  function AttendEvent(events: seq<Event>, id: string): (r: Reply<Event>)
    ensures r.result.Err? <==> forall e | e in events :: e.id != id
    ensures r.result.Err? ==> r.result.error == EventNotFound && r.storage == events
    ensures r.result.Ok? ==> forall i | IsFirstMatch(events, id, i) ::
      r.result.value == events[i].(attendees := events[i].attendees + 1) && r.storage == events[i := r.result.value]
  {
    match GetEventById(events, id)
    case Err(f) => Reply(events, Err(f))
    case Ok(e) => UpdateEvent(events, id, EventAsPatch(e.(attendees := e.attendees + 1)))
  }

  /** Looks the event up, then writes it back with one attendee fewer,
      never going below zero. */
  function CancelAttendance(events: seq<Event>, id: string): (r: Reply<Event>)
    ensures r.result.Err? <==> forall e | e in events :: e.id != id
    ensures r.result.Err? ==> r.result.error == EventNotFound && r.storage == events
    ensures r.result.Ok? ==> forall i | IsFirstMatch(events, id, i) ::
      r.result.value == events[i].(attendees := Max(0, events[i].attendees - 1)) && r.storage == events[i := r.result.value]
  {
    match GetEventById(events, id)
    case Err(f) => Reply(events, Err(f))
    case Ok(e) => UpdateEvent(events, id, EventAsPatch(e.(attendees := Max(0, e.attendees - 1))))
  }

  /** `Math.max`. */
  function Max(a: int, b: int): (m: int)
    ensures m >= a && m >= b && (m == a || m == b)
  {
    if a >= b then a else b
  }

  function HasStatus(status: string): Event -> bool {
    (e: Event) => e.status == status
  }

  /** `events.filter(event => event.status === status)`: the events with
      that status in stored order, each as often as it is stored. */
  function EventsWithStatus(events: seq<Event>, status: string): (r: seq<Event>)
    ensures forall e | e in r :: e in events && e.status == status
    ensures forall e | e in events && e.status == status :: e in r
    ensures IsSubsequence(r, events)
    ensures forall e :: multiset(r)[e] == if e.status == status then multiset(events)[e] else 0
  {
    FilterKeepsOrderAndCounts(HasStatus(status), events);
    Filter(HasStatus(status), events)
  }

  /** The upcoming events. */
  function GetUpcomingEvents(events: seq<Event>): (r: seq<Event>)
    ensures forall e | e in r :: e in events && e.status == "upcoming"
    ensures forall e | e in events && e.status == "upcoming" :: e in r
  {
    EventsWithStatus(events, "upcoming")
  }

  /** The completed events. */
  function GetPastEvents(events: seq<Event>): (r: seq<Event>)
    ensures forall e | e in r :: e in events && e.status == "completed"
    ensures forall e | e in events && e.status == "completed" :: e in r
  {
    EventsWithStatus(events, "completed")
  }

  // ---------------------------------------------------------------------
  // Properties

  /** The lookup and the update agree on which record the id names. */
  lemma GetAndUpdateAgree(events: seq<Event>, id: string, p: EventPatch)
    ensures GetEventById(events, id).Ok? <==> UpdateEvent(events, id, p).result.Ok?
    ensures GetEventById(events, id).Ok? ==>
      UpdateEvent(events, id, p).result.value == MergeEvent(GetEventById(events, id).value, p)
  {
    if GetEventById(events, id).Ok? {
      FirstMatchExists(events, id);
    }
  }

  /** A successful delete removes the id for good: repeating it rejects. */
  lemma DeleteTwiceRejects(events: seq<Event>, id: string)
    requires DeleteEvent(events, id).result.Ok?
    ensures DeleteEvent(DeleteEvent(events, id).storage, id).result == Err(EventNotFound)
  {
  }

  /** Creating an event under a fresh id and deleting that id restores the
      stored list. */
  lemma CreateThenDelete(events: seq<Event>, d: EventDraft, generatedId: string)
    requires HasRequiredFields(d)
    requires forall e | e in events :: e.id != d.id.GetOr(generatedId)
    ensures DeleteEvent(CreateEvent(events, d, generatedId).storage, d.id.GetOr(generatedId)).result == Ok(true)
    ensures DeleteEvent(CreateEvent(events, d, generatedId).storage, d.id.GetOr(generatedId)).storage == events
  {
    var id := d.id.GetOr(generatedId);
    var e := CreateEvent(events, d, generatedId).result.value;
    FilterAppend(IdIsNot(EventId, id), events, [e]);
    FilterKeepsAll(IdIsNot(EventId, id), events);
    assert Filter(IdIsNot(EventId, id), [e]) == [];
  }

  /** The first match exists exactly when some event has the id. */
  lemma FirstMatchExists(events: seq<Event>, id: string)
    requires exists e | e in events :: e.id == id
    ensures exists i :: IsFirstMatch(events, id, i)
  {
    var i := IndexOf(HasId(EventId, id), events).value;
    assert IsFirstMatch(events, id, i);
  }

  /** Attending and then cancelling restores the stored list whenever the
      count was not negative. */
  lemma AttendThenCancel(events: seq<Event>, id: string)
    requires forall e | e in events :: e.attendees >= 0
    ensures CancelAttendance(AttendEvent(events, id).storage, id).storage == events
  {
    var a := AttendEvent(events, id);
    if a.result.Ok? {
      FirstMatchExists(events, id);
      var i :| IsFirstMatch(events, id, i);
      var e1 := events[i].(attendees := events[i].attendees + 1);
      AttendAt(events, id, i);
      FirstMatchAfterWrite(events, id, i, e1);
      CancelAt(events[i := e1], id, i);
      assert events[i] in events;
      assert e1.(attendees := Max(0, e1.attendees - 1)) == events[i];
      assert events[i := e1][i := events[i]] == events;
    }
  }

  lemma AttendAt(events: seq<Event>, id: string, i: int)
    requires IsFirstMatch(events, id, i)
    ensures AttendEvent(events, id).storage == events[i := events[i].(attendees := events[i].attendees + 1)]
  {
  }

  lemma CancelAt(events: seq<Event>, id: string, i: int)
    requires IsFirstMatch(events, id, i)
    ensures CancelAttendance(events, id).storage == events[i := events[i].(attendees := Max(0, events[i].attendees - 1))]
  {
  }

  /** Writing a record with the same id keeps it the first match. */
  lemma FirstMatchAfterWrite(events: seq<Event>, id: string, i: int, e: Event)
    requires IsFirstMatch(events, id, i) && e.id == id
    ensures IsFirstMatch(events[i := e], id, i)
  {
  }

  /** Cancelling never leaves a negative count, and takes exactly one away
      from a positive count. */
  lemma CancelAttendanceBounds(events: seq<Event>, id: string)
    requires exists e | e in events :: e.id == id
    ensures CancelAttendance(events, id).result.Ok?
    ensures CancelAttendance(events, id).result.value.attendees >= 0
    ensures GetEventById(events, id).value.attendees > 0 ==>
      CancelAttendance(events, id).result.value.attendees == GetEventById(events, id).value.attendees - 1
  {
    FirstMatchExists(events, id);
    var i :| IsFirstMatch(events, id, i);
  }

  /** No event is both upcoming and past, and a cancelled event is neither. */
  lemma UpcomingAndPastDisjoint(events: seq<Event>)
    ensures forall e | e in GetUpcomingEvents(events) :: e !in GetPastEvents(events)
    ensures forall e | e in events && e.status == "cancelled" ::
      e !in GetUpcomingEvents(events) && e !in GetPastEvents(events)
  {
  }

  /** The status and club filters keep storage order. */
  lemma FiltersKeepOrder(events: seq<Event>, clubId: string)
    ensures IsSubsequence(GetUpcomingEvents(events), events)
    ensures IsSubsequence(GetPastEvents(events), events)
    ensures IsSubsequence(GetEventsByClubId(events, clubId), events)
  {
    FilterIsSubsequence(InClub(EventClubId, clubId), events);
  }
}
