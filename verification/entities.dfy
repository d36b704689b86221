/** The records of the club data layer, the inputs that create them and the
    patches that update them.

    A JavaScript record is an open object. Here each entity is a datatype
    with the fields the application reads; a string field the caller left
    out is the empty string (both are falsy, which is all the code tests),
    and a field whose mere presence matters -- a caller-supplied `id`, or
    any field of an update patch -- is an `Option`. */
module Entities {
  import opened Wrappers

  datatype Club = Club(
    id: string,
    name: string,
    description: string,
    category: string,
    logo: string,
    members: int,
    createdAt: string,
    events: seq<string>,
    ideas: seq<string>,
    president: string,
    faculty: string)

  datatype Event = Event(
    id: string,
    name: string,
    description: string,
    date: string,
    time: string,
    venue: string,
    clubId: string,
    attendees: int,
    status: string,
    image: string)

  datatype Idea = Idea(
    id: string,
    title: string,
    description: string,
    creator: string,
    clubId: string,
    status: string,
    votes: int,
    createdAt: string,
    tags: seq<string>)

  /** The object a caller passes to `createClub`. The last four fields are
      ones the store overrides whatever the caller sends. */
  datatype ClubDraft = ClubDraft(
    id: Option<string>,
    name: string,
    description: string,
    category: string,
    logo: string,
    president: string,
    faculty: string,
    members: Option<int>,
    createdAt: Option<string>,
    events: Option<seq<string>>,
    ideas: Option<seq<string>>)

  /** The object a caller passes to `createEvent`. */
  datatype EventDraft = EventDraft(
    id: Option<string>,
    name: string,
    description: string,
    date: string,
    time: string,
    venue: string,
    clubId: string,
    image: string,
    attendees: Option<int>,
    status: Option<string>)

  /** The object a caller passes to `createIdea`. */
  datatype IdeaDraft = IdeaDraft(
    id: Option<string>,
    title: string,
    description: string,
    creator: string,
    clubId: string,
    tags: seq<string>,
    votes: Option<int>,
    status: Option<string>,
    createdAt: Option<string>)

  /** An update object: every key it carries overrides the record's. */
  datatype ClubPatch = ClubPatch(
    id: Option<string>,
    name: Option<string>,
    description: Option<string>,
    category: Option<string>,
    logo: Option<string>,
    members: Option<int>,
    createdAt: Option<string>,
    events: Option<seq<string>>,
    ideas: Option<seq<string>>,
    president: Option<string>,
    faculty: Option<string>)

  datatype EventPatch = EventPatch(
    id: Option<string>,
    name: Option<string>,
    description: Option<string>,
    date: Option<string>,
    time: Option<string>,
    venue: Option<string>,
    clubId: Option<string>,
    attendees: Option<int>,
    status: Option<string>,
    image: Option<string>)

  datatype IdeaPatch = IdeaPatch(
    id: Option<string>,
    title: Option<string>,
    description: Option<string>,
    creator: Option<string>,
    clubId: Option<string>,
    status: Option<string>,
    votes: Option<int>,
    createdAt: Option<string>,
    tags: Option<seq<string>>)

  /** `{ ...c, ...p }`: the patch's keys win. */
  function MergeClub(c: Club, p: ClubPatch): Club {
    Club(
      p.id.GetOr(c.id), p.name.GetOr(c.name), p.description.GetOr(c.description),
      p.category.GetOr(c.category), p.logo.GetOr(c.logo), p.members.GetOr(c.members),
      p.createdAt.GetOr(c.createdAt), p.events.GetOr(c.events), p.ideas.GetOr(c.ideas),
      p.president.GetOr(c.president), p.faculty.GetOr(c.faculty))
  }

  function MergeEvent(e: Event, p: EventPatch): Event {
    Event(
      p.id.GetOr(e.id), p.name.GetOr(e.name), p.description.GetOr(e.description),
      p.date.GetOr(e.date), p.time.GetOr(e.time), p.venue.GetOr(e.venue),
      p.clubId.GetOr(e.clubId), p.attendees.GetOr(e.attendees),
      p.status.GetOr(e.status), p.image.GetOr(e.image))
  }

  function MergeIdea(i: Idea, p: IdeaPatch): Idea {
    Idea(
      p.id.GetOr(i.id), p.title.GetOr(i.title), p.description.GetOr(i.description),
      p.creator.GetOr(i.creator), p.clubId.GetOr(i.clubId), p.status.GetOr(i.status),
      p.votes.GetOr(i.votes), p.createdAt.GetOr(i.createdAt), p.tags.GetOr(i.tags))
  }

  /** A whole record spread into an update object (`{ ...event, ... }`). */
  function EventAsPatch(e: Event): (p: EventPatch)
    ensures forall r: Event :: MergeEvent(r, p) == e
  {
    EventPatch(Some(e.id), Some(e.name), Some(e.description), Some(e.date), Some(e.time),
      Some(e.venue), Some(e.clubId), Some(e.attendees), Some(e.status), Some(e.image))
  }

  function IdeaAsPatch(i: Idea): (p: IdeaPatch)
    ensures forall r: Idea :: MergeIdea(r, p) == i
  {
    IdeaPatch(Some(i.id), Some(i.title), Some(i.description), Some(i.creator), Some(i.clubId),
      Some(i.status), Some(i.votes), Some(i.createdAt), Some(i.tags))
  }

  const ClubId: Club -> string := (c: Club) => c.id
  const EventId: Event -> string := (e: Event) => e.id
  const EventClubId: Event -> string := (e: Event) => e.clubId
  const IdeaId: Idea -> string := (i: Idea) => i.id
  const IdeaClubId: Idea -> string := (i: Idea) => i.clubId

  /** `x => x.id === id` for any record kind. */
  function HasId<T>(idOf: T -> string, id: string): T -> bool {
    (x: T) => idOf(x) == id
  }

  /** `x => x.id !== id` for any record kind. */
  function IdIsNot<T>(idOf: T -> string, id: string): T -> bool {
    (x: T) => idOf(x) != id
  }

  /** `x => x.clubId === clubId` for any record kind. */
  function InClub<T>(clubOf: T -> string, clubId: string): T -> bool {
    (x: T) => clubOf(x) == clubId
  }
}
