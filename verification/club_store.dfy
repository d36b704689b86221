/** The club context: one immutable `Store` of clubs, events and ideas, and
    the operations the application performs on it, each an atomic
    transition from one store to the next.

    Every club carries `events`/`ideas`, denormalised lists of the ids of
    its children. `createEvent`/`createIdea` append the new id to the owning
    club and `deleteEvent`/`deleteIdea` strip it; `Consistent` states the
    relationship those steps maintain. Generated ids and today's date are
    parameters. */
module ClubStore {
  import opened Wrappers
  import opened Seqs
  import opened Entities

  datatype Store = Store(clubs: seq<Club>, events: seq<Event>, ideas: seq<Idea>)

  /** A create operation's new store together with the record it returns. */
  datatype Created<T> = Created(store: Store, record: T)

  // ---------------------------------------------------------------------
  // Sample data the store starts from (logo and image URLs left empty)

  const SampleClub1: Club :=
    Club("1", "Tech Innovators",
      "A club for students passionate about technology and innovation. We work on cutting-edge projects and organize tech events.",
      "Technology",
      "",
      45, "2023-01-15", ["1", "3"], ["1", "2"], "Ravi Kumar", "Dr. Anand Sharma")

  const SampleClub2: Club :=
    Club("2", "Entrepreneurship Cell",
      "We nurture and support student entrepreneurs to develop their business ideas and connect with industry experts.",
      "Business",
      "",
      32, "2023-02-10", ["2"], ["3"], "Priya Reddy", "Prof. Rajesh Gupta")

  const SampleClub3: Club :=
    Club("3", "Robotics Club",
      "Exploring the world of robotics through hands-on projects, competitions, and workshops.",
      "Technology",
      "",
      12, "2023-03-05", ["4"], ["4"], "Kiran Patel", "Dr. Meenakshi Verma")

  const SampleClubs: seq<Club> := [SampleClub1, SampleClub2, SampleClub3]

  const SampleEvent1: Event :=
    Event("1", "Hackathon 2025",
      "A 24-hour coding competition to solve real-world problems using technology.",
      "2025-02-15", "09:00 AM", "Main Auditorium", "1", 120, "upcoming",
      "")

  const SampleEvent2: Event :=
    Event("2", "Startup Pitch Day",
      "Present your startup ideas to investors and win funding for your venture.",
      "2025-03-20", "10:00 AM", "Seminar Hall B", "2", 75, "upcoming",
      "")

  const SampleEvent3: Event :=
    Event("3", "Tech Workshop",
      "Learn the basics of web development and create your first website.",
      "2023-05-10", "02:00 PM", "Computer Lab 2", "1", 40, "completed",
      "")

  const SampleEvent4: Event :=
    Event("4", "Robotics Competition",
      "Showcase your robotics skills and compete for exciting prizes.",
      "2025-04-10", "11:00 AM", "Engineering Block", "3", 50, "upcoming",
      "")

  const SampleEvents: seq<Event> := [SampleEvent1, SampleEvent2, SampleEvent3, SampleEvent4]

  const SampleIdea1: Idea :=
    Idea("1", "Smart Campus App",
      "A mobile app that helps students navigate the campus, check class schedules, and get real-time updates.",
      "Suresh Kumar", "1", "in-progress", 32, "2023-04-05", ["mobile", "technology", "campus"])

  const SampleIdea2: Idea :=
    Idea("2", "Virtual Reality Lab",
      "Setting up a VR lab for immersive learning experiences across different subjects.",
      "Aarti Singh", "1", "proposed", 27, "2023-04-12", ["vr", "education", "innovation"])

  const SampleIdea3: Idea :=
    Idea("3", "Student Marketplace",
      "An online platform for students to buy and sell used books, electronics, and other items within the campus community.",
      "Rahul Verma", "2", "approved", 45, "2023-03-28", ["marketplace", "business", "students"])

  const SampleIdea4: Idea :=
    Idea("4", "Automated Waste Sorter",
      "A robot that can automatically sort different types of waste for better recycling on campus.",
      "Deepa Nair", "3", "proposed", 19, "2024-12-18", ["robotics", "environment", "sustainability"])

  const SampleIdeas: seq<Idea> := [SampleIdea1, SampleIdea2, SampleIdea3, SampleIdea4]

  /** The store as the provider loads it. */
  function Seed(): Store {
    Store(SampleClubs, SampleEvents, SampleIdeas)
  }

  // ---------------------------------------------------------------------
  // The club <-> child relationship

  /** Ids, in store order, of the records whose club reference is `clubId`:
      what a club's `events` (or `ideas`) list is meant to hold. */
  function ChildIds<T>(xs: seq<T>, idOf: T -> string, clubOf: T -> string, clubId: string): seq<string>
    decreases |xs|
  {
    if xs == [] then []
    else (if clubOf(xs[0]) == clubId then [idOf(xs[0])] else []) + ChildIds(xs[1..], idOf, clubOf, clubId)
  }

  /** The club's lists equal the ids of its children, in order. */
  ghost predicate ClubListsMatch(s: Store, c: Club) {
    && c.events == ChildIds(s.events, EventId, EventClubId, c.id)
    && c.ideas == ChildIds(s.ideas, IdeaId, IdeaClubId, c.id)
  }

  /** Records that share an id belong to the same club (true in particular
      when ids are unique). */
  ghost predicate SharedIdsShareClub<T(!new)>(xs: seq<T>, idOf: T -> string, clubOf: T -> string) {
    forall a, b | a in xs && b in xs && idOf(a) == idOf(b) :: clubOf(a) == clubOf(b)
  }

  /** The relationship invariant: every club's lists match its children, no
      club has the empty id (the value a childless record carries), and a
      shared id never names two different owners. */
  ghost predicate Consistent(s: Store) {
    && (forall c | c in s.clubs :: ClubListsMatch(s, c) && c.id != "")
    && SharedIdsShareClub(s.events, EventId, EventClubId)
    && SharedIdsShareClub(s.ideas, IdeaId, IdeaClubId)
  }

  // ---------------------------------------------------------------------
  // Queries

  /** `clubs.find(club => club.id === id)`: the first club with the id. */
  function GetClubById(s: Store, id: string): (r: Option<Club>)
    ensures r.Some? ==> r.value in s.clubs && r.value.id == id
    ensures r.None? <==> forall c | c in s.clubs :: c.id != id
    ensures forall i | 0 <= i < |s.clubs| && s.clubs[i].id == id && (forall j | 0 <= j < i :: s.clubs[j].id != id) ::
      r == Some(s.clubs[i])
  {
    var r := Find(HasId(ClubId, id), s.clubs);
    assert forall i | 0 <= i < |s.clubs| && s.clubs[i].id == id && (forall j | 0 <= j < i :: s.clubs[j].id != id) ::
      IsFirst(HasId(ClubId, id), s.clubs, i);
    r
  }

  /** The first event with the id. */
  function GetEventById(s: Store, id: string): (r: Option<Event>)
    ensures r.Some? ==> r.value in s.events && r.value.id == id
    ensures r.None? <==> forall e | e in s.events :: e.id != id
    ensures forall i | 0 <= i < |s.events| && s.events[i].id == id && (forall j | 0 <= j < i :: s.events[j].id != id) ::
      r == Some(s.events[i])
  {
    var r := Find(HasId(EventId, id), s.events);
    assert forall i | 0 <= i < |s.events| && s.events[i].id == id && (forall j | 0 <= j < i :: s.events[j].id != id) ::
      IsFirst(HasId(EventId, id), s.events, i);
    r
  }

  /** The first idea with the id. */
  function GetIdeaById(s: Store, id: string): (r: Option<Idea>)
    ensures r.Some? ==> r.value in s.ideas && r.value.id == id
    ensures r.None? <==> forall i | i in s.ideas :: i.id != id
    ensures forall k | 0 <= k < |s.ideas| && s.ideas[k].id == id && (forall j | 0 <= j < k :: s.ideas[j].id != id) ::
      r == Some(s.ideas[k])
  {
    var r := Find(HasId(IdeaId, id), s.ideas);
    assert forall k | 0 <= k < |s.ideas| && s.ideas[k].id == id && (forall j | 0 <= j < k :: s.ideas[j].id != id) ::
      IsFirst(HasId(IdeaId, id), s.ideas, k);
    r
  }

  /** `events.filter(event => event.clubId === clubId)`: the club's events
      in store order, each as often as it is stored. */
  function GetEventsByClubId(s: Store, clubId: string): (r: seq<Event>)
    ensures forall e | e in r :: e in s.events && e.clubId == clubId
    ensures forall e | e in s.events && e.clubId == clubId :: e in r
    ensures IsSubsequence(r, s.events)
    ensures forall e :: multiset(r)[e] == if e.clubId == clubId then multiset(s.events)[e] else 0
  {
    FilterKeepsOrderAndCounts(InClub(EventClubId, clubId), s.events);
    Filter(InClub(EventClubId, clubId), s.events)
  }

  /** The club's ideas in store order, each as often as it is stored. */
  function GetIdeasByClubId(s: Store, clubId: string): (r: seq<Idea>)
    ensures forall i | i in r :: i in s.ideas && i.clubId == clubId
    ensures forall i | i in s.ideas && i.clubId == clubId :: i in r
    ensures IsSubsequence(r, s.ideas)
    ensures forall i :: multiset(r)[i] == if i.clubId == clubId then multiset(s.ideas)[i] else 0
  {
    FilterKeepsOrderAndCounts(InClub(IdeaClubId, clubId), s.ideas);
    Filter(InClub(IdeaClubId, clubId), s.ideas)
  }

  // ---------------------------------------------------------------------
  // Clubs

  /** `{ id: generated, ...clubData, members: 1, createdAt: today, events: [], ideas: [] }`
      appended to the clubs. */
  function CreateClub(s: Store, d: ClubDraft, generatedId: string, today: string): (r: Created<Club>)
    ensures r.record.members == 1 && r.record.createdAt == today
    ensures r.record.events == [] && r.record.ideas == []
    ensures r.record.id == d.id.GetOr(generatedId)
    ensures r.record.name == d.name && r.record.description == d.description
    ensures r.record.category == d.category && r.record.logo == d.logo
    ensures r.record.president == d.president && r.record.faculty == d.faculty
    ensures r.store.clubs == s.clubs + [r.record]
    ensures r.store.events == s.events && r.store.ideas == s.ideas
  {
    var c := Club(d.id.GetOr(generatedId), d.name, d.description, d.category, d.logo,
      1, today, [], [], d.president, d.faculty);
    Created(s.(clubs := s.clubs + [c]), c)
  }

  function MergeClubIf(id: string, p: ClubPatch): Club -> Club {
    (c: Club) => if c.id == id then MergeClub(c, p) else c
  }

  /** Shallow-merges the patch onto every club with that id; never fails. */
  function UpdateClub(s: Store, id: string, p: ClubPatch): (r: Store)
    ensures |r.clubs| == |s.clubs|
    ensures forall i :: 0 <= i < |s.clubs| && s.clubs[i].id == id ==> r.clubs[i] == MergeClub(s.clubs[i], p)
    ensures forall i :: 0 <= i < |s.clubs| && s.clubs[i].id != id ==> r.clubs[i] == s.clubs[i]
    ensures r.events == s.events && r.ideas == s.ideas
  {
    s.(clubs := Map(MergeClubIf(id, p), s.clubs))
  }

  /** Removes every club with that id; children keep their `clubId`. */
  function DeleteClub(s: Store, id: string): (r: Store)
    ensures forall c | c in r.clubs :: c in s.clubs && c.id != id
    ensures forall c | c in s.clubs && c.id != id :: c in r.clubs
    ensures IsSubsequence(r.clubs, s.clubs)
    ensures forall c :: multiset(r.clubs)[c] == if c.id != id then multiset(s.clubs)[c] else 0
    ensures r.events == s.events && r.ideas == s.ideas
  {
    FilterKeepsOrderAndCounts(IdIsNot(ClubId, id), s.clubs);
    s.(clubs := Filter(IdIsNot(ClubId, id), s.clubs))
  }

  // ---------------------------------------------------------------------
  // Events

  function AppendEventTo(clubId: string, eventId: string): Club -> Club {
    (c: Club) => if c.id == clubId then c.(events := c.events + [eventId]) else c
  }

  function StripEventFrom(clubId: string, eventId: string): Club -> Club {
    (c: Club) => if c.id == clubId then c.(events := Filter(IsNot(eventId), c.events)) else c
  }

  function IsNot(id: string): string -> bool {
    (x: string) => x != id
  }

  /** `{ id: generated, ...eventData, attendees: 0, status: 'upcoming' }`,
      appended to the events; when `clubId` is set, every club with that id
      gets the new id at the end of its `events`. */
  function CreateEvent(s: Store, d: EventDraft, generatedId: string): (r: Created<Event>)
    ensures r.record.attendees == 0 && r.record.status == "upcoming"
    ensures r.record.id == d.id.GetOr(generatedId) && r.record.clubId == d.clubId
    ensures r.record.name == d.name && r.record.date == d.date && r.record.venue == d.venue
    ensures r.record.description == d.description && r.record.time == d.time && r.record.image == d.image
    ensures r.store.events == s.events + [r.record] && r.store.ideas == s.ideas
    ensures |r.store.clubs| == |s.clubs|
    ensures forall i :: 0 <= i < |s.clubs| ==>
      r.store.clubs[i] == if d.clubId != "" && s.clubs[i].id == d.clubId
                          then s.clubs[i].(events := s.clubs[i].events + [r.record.id])
                          else s.clubs[i]
  {
    var e := Event(d.id.GetOr(generatedId), d.name, d.description, d.date, d.time, d.venue,
      d.clubId, 0, "upcoming", d.image);
    var clubs := if d.clubId != "" then Map(AppendEventTo(d.clubId, e.id), s.clubs) else s.clubs;
    Created(Store(clubs, s.events + [e], s.ideas), e)
  }

  function MergeEventIf(id: string, p: EventPatch): Event -> Event {
    (e: Event) => if e.id == id then MergeEvent(e, p) else e
  }

  function UpdateEvent(s: Store, id: string, p: EventPatch): (r: Store)
    ensures |r.events| == |s.events|
    ensures forall i :: 0 <= i < |s.events| && s.events[i].id == id ==> r.events[i] == MergeEvent(s.events[i], p)
    ensures forall i :: 0 <= i < |s.events| && s.events[i].id != id ==> r.events[i] == s.events[i]
    ensures r.clubs == s.clubs && r.ideas == s.ideas
  {
    s.(events := Map(MergeEventIf(id, p), s.events))
  }

  /** Removes every event with that id and, when the first such event names
      a club, strips the id from that club's list. An unknown id changes
      nothing and still succeeds. */
  function DeleteEvent(s: Store, id: string): (r: Store)
    ensures forall e | e in r.events :: e in s.events && e.id != id
    ensures forall e | e in s.events && e.id != id :: e in r.events
    ensures IsSubsequence(r.events, s.events)
    ensures forall e :: multiset(r.events)[e] == if e.id != id then multiset(s.events)[e] else 0
    ensures r.ideas == s.ideas && |r.clubs| == |s.clubs|
    ensures forall i :: 0 <= i < |s.clubs| ==>
      r.clubs[i] == match GetEventById(s, id)
                    case Some(e) =>
                      if e.clubId != "" && s.clubs[i].id == e.clubId
                      then s.clubs[i].(events := Filter(IsNot(id), s.clubs[i].events))
                      else s.clubs[i]
                    case None => s.clubs[i]
  {
    var events := Filter(IdIsNot(EventId, id), s.events);
    FilterKeepsOrderAndCounts(IdIsNot(EventId, id), s.events);
    match Find(HasId(EventId, id), s.events)
    case Some(e) =>
      if e.clubId != "" then Store(Map(StripEventFrom(e.clubId, id), s.clubs), events, s.ideas)
      else s.(events := events)
    case None => s.(events := events)
  }

  // ---------------------------------------------------------------------
  // Ideas

  function AppendIdeaTo(clubId: string, ideaId: string): Club -> Club {
    (c: Club) => if c.id == clubId then c.(ideas := c.ideas + [ideaId]) else c
  }

  function StripIdeaFrom(clubId: string, ideaId: string): Club -> Club {
    (c: Club) => if c.id == clubId then c.(ideas := Filter(IsNot(ideaId), c.ideas)) else c
  }

  /** `{ id: generated, ...ideaData, votes: 0, createdAt: today, status: 'proposed' }`,
      appended to the ideas, with the owning club's `ideas` list extended. */
  function CreateIdea(s: Store, d: IdeaDraft, generatedId: string, today: string): (r: Created<Idea>)
    ensures r.record.votes == 0 && r.record.status == "proposed" && r.record.createdAt == today
    ensures r.record.id == d.id.GetOr(generatedId) && r.record.clubId == d.clubId
    ensures r.record.title == d.title && r.record.tags == d.tags && r.record.creator == d.creator
    ensures r.record.description == d.description
    ensures r.store.ideas == s.ideas + [r.record] && r.store.events == s.events
    ensures |r.store.clubs| == |s.clubs|
    ensures forall i :: 0 <= i < |s.clubs| ==>
      r.store.clubs[i] == if d.clubId != "" && s.clubs[i].id == d.clubId
                          then s.clubs[i].(ideas := s.clubs[i].ideas + [r.record.id])
                          else s.clubs[i]
  {
    var idea := Idea(d.id.GetOr(generatedId), d.title, d.description, d.creator, d.clubId,
      "proposed", 0, today, d.tags);
    var clubs := if d.clubId != "" then Map(AppendIdeaTo(d.clubId, idea.id), s.clubs) else s.clubs;
    Created(Store(clubs, s.events, s.ideas + [idea]), idea)
  }

  function MergeIdeaIf(id: string, p: IdeaPatch): Idea -> Idea {
    (i: Idea) => if i.id == id then MergeIdea(i, p) else i
  }

  function UpdateIdea(s: Store, id: string, p: IdeaPatch): (r: Store)
    ensures |r.ideas| == |s.ideas|
    ensures forall i :: 0 <= i < |s.ideas| && s.ideas[i].id == id ==> r.ideas[i] == MergeIdea(s.ideas[i], p)
    ensures forall i :: 0 <= i < |s.ideas| && s.ideas[i].id != id ==> r.ideas[i] == s.ideas[i]
    ensures r.clubs == s.clubs && r.events == s.events
  {
    s.(ideas := Map(MergeIdeaIf(id, p), s.ideas))
  }

  function DeleteIdea(s: Store, id: string): (r: Store)
    ensures forall i | i in r.ideas :: i in s.ideas && i.id != id
    ensures forall i | i in s.ideas && i.id != id :: i in r.ideas
    ensures IsSubsequence(r.ideas, s.ideas)
    ensures forall i :: multiset(r.ideas)[i] == if i.id != id then multiset(s.ideas)[i] else 0
    ensures r.events == s.events && |r.clubs| == |s.clubs|
    ensures forall k :: 0 <= k < |s.clubs| ==>
      r.clubs[k] == match GetIdeaById(s, id)
                    case Some(i) =>
                      if i.clubId != "" && s.clubs[k].id == i.clubId
                      then s.clubs[k].(ideas := Filter(IsNot(id), s.clubs[k].ideas))
                      else s.clubs[k]
                    case None => s.clubs[k]
  {
    var ideas := Filter(IdIsNot(IdeaId, id), s.ideas);
    FilterKeepsOrderAndCounts(IdIsNot(IdeaId, id), s.ideas);
    match Find(HasId(IdeaId, id), s.ideas)
    case Some(i) =>
      if i.clubId != "" then Store(Map(StripIdeaFrom(i.clubId, id), s.clubs), s.events, ideas)
      else s.(ideas := ideas)
    case None => s.(ideas := ideas)
  }

  function VoteIf(id: string): Idea -> Idea {
    (i: Idea) => if i.id == id then i.(votes := i.votes + 1) else i
  }

  /** Adds one vote to every idea with that id. */
  function VoteIdea(s: Store, id: string): (r: Store)
    ensures |r.ideas| == |s.ideas|
    ensures forall i :: 0 <= i < |s.ideas| && s.ideas[i].id == id ==> r.ideas[i] == s.ideas[i].(votes := s.ideas[i].votes + 1)
    ensures forall i :: 0 <= i < |s.ideas| && s.ideas[i].id != id ==> r.ideas[i] == s.ideas[i]
    ensures r.clubs == s.clubs && r.events == s.events
  {
    s.(ideas := Map(VoteIf(id), s.ideas))
  }

  // ---------------------------------------------------------------------
  // Facts about the relationship lists

  /** Appending a record extends its club's id list at the end. */
  lemma {:induction false} ChildIdsAppend<T>(xs: seq<T>, x: T, idOf: T -> string, clubOf: T -> string, k: string)
    ensures ChildIds(xs + [x], idOf, clubOf, k)
         == ChildIds(xs, idOf, clubOf, k) + (if clubOf(x) == k then [idOf(x)] else [])
    decreases |xs|
  {
    if xs != [] {
      assert (xs + [x])[1..] == xs[1..] + [x];
      ChildIdsAppend(xs[1..], x, idOf, clubOf, k);
    }
  }

  /** Filtering a record id out of the records filters it out of every
      club's id list. */
  lemma {:induction false} ChildIdsWithout<T(!new)>(xs: seq<T>, idOf: T -> string, clubOf: T -> string, id: string, k: string)
    ensures ChildIds(Filter(IdIsNot(idOf, id), xs), idOf, clubOf, k)
         == Filter(IsNot(id), ChildIds(xs, idOf, clubOf, k))
    decreases |xs|
  {
    if xs != [] {
      var x := xs[0];
      var rest := Filter(IdIsNot(idOf, id), xs[1..]);
      var tail := ChildIds(xs[1..], idOf, clubOf, k);
      ChildIdsWithout(xs[1..], idOf, clubOf, id, k);
      var head: seq<string> := if clubOf(x) == k then [idOf(x)] else [];
      assert ChildIds(xs, idOf, clubOf, k) == head + tail;
      FilterAppend(IsNot(id), head, tail);
      if idOf(x) != id {
        assert Filter(IdIsNot(idOf, id), xs) == [x] + rest;
        assert ([x] + rest)[1..] == rest;
        assert ChildIds([x] + rest, idOf, clubOf, k) == head + ChildIds(rest, idOf, clubOf, k);
        if clubOf(x) == k {
          assert [idOf(x)][1..] == [];
          assert Filter(IsNot(id), head) == head;
        }
      } else {
        assert Filter(IdIsNot(idOf, id), xs) == rest;
        if clubOf(x) == k {
          assert [idOf(x)][1..] == [];
          assert Filter(IsNot(id), head) == [];
        }
      }
    }
  }

  /** An id no record of club `k` carries is not in `k`'s list. */
  lemma {:induction false} ChildIdsOmit<T(!new)>(xs: seq<T>, idOf: T -> string, clubOf: T -> string, id: string, k: string)
    requires forall x | x in xs && idOf(x) == id :: clubOf(x) != k
    ensures id !in ChildIds(xs, idOf, clubOf, k)
    decreases |xs|
  {
    if xs != [] {
      ChildIdsOmit(xs[1..], idOf, clubOf, id, k);
    }
  }

  /** A club no record points to has an empty id list. */
  lemma {:induction false} ChildIdsNone<T(!new)>(xs: seq<T>, idOf: T -> string, clubOf: T -> string, k: string)
    requires forall x | x in xs :: clubOf(x) != k
    ensures ChildIds(xs, idOf, clubOf, k) == []
    decreases |xs|
  {
    if xs != [] {
      ChildIdsNone(xs[1..], idOf, clubOf, k);
    }
  }

  /** Rewriting records without touching their id or club reference leaves
      every id list as it is. */
  lemma {:induction false} ChildIdsUnderMap<T>(xs: seq<T>, f: T -> T, idOf: T -> string, clubOf: T -> string, k: string)
    requires forall i :: 0 <= i < |xs| ==> idOf(f(xs[i])) == idOf(xs[i]) && clubOf(f(xs[i])) == clubOf(xs[i])
    ensures ChildIds(Map(f, xs), idOf, clubOf, k) == ChildIds(xs, idOf, clubOf, k)
    decreases |xs|
  {
    if xs != [] {
      assert Map(f, xs)[1..] == Map(f, xs[1..]);
      ChildIdsUnderMap(xs[1..], f, idOf, clubOf, k);
    }
  }

  /** A map that keeps ids and club references keeps shared ids owned by one club. */
  lemma SharedIdsUnderMap<T(!new)>(xs: seq<T>, f: T -> T, idOf: T -> string, clubOf: T -> string)
    requires SharedIdsShareClub(xs, idOf, clubOf)
    requires forall i :: 0 <= i < |xs| ==> idOf(f(xs[i])) == idOf(xs[i]) && clubOf(f(xs[i])) == clubOf(xs[i])
    ensures SharedIdsShareClub(Map(f, xs), idOf, clubOf)
  {
    var ys := Map(f, xs);
    forall a, b | a in ys && b in ys && idOf(a) == idOf(b) ensures clubOf(a) == clubOf(b) {
      var i :| 0 <= i < |ys| && ys[i] == a;
      var j :| 0 <= j < |ys| && ys[j] == b;
      assert xs[i] in xs && xs[j] in xs;
    }
  }

  /** Removing an id that a list does not hold changes nothing. */
  lemma StripAbsentId(ids: seq<string>, id: string)
    requires id !in ids
    ensures Filter(IsNot(id), ids) == ids
  {
    FilterKeepsAll(IsNot(id), ids);
  }

  // ---------------------------------------------------------------------
  // The sample data and the invariant

  /** `ChildIds` of a four-record list, spelled out record by record. */
  lemma ChildIdsOfFour<T>(xs: seq<T>, idOf: T -> string, clubOf: T -> string, k: string)
    requires |xs| == 4
    ensures ChildIds(xs, idOf, clubOf, k)
         == (if clubOf(xs[0]) == k then [idOf(xs[0])] else [])
          + (if clubOf(xs[1]) == k then [idOf(xs[1])] else [])
          + (if clubOf(xs[2]) == k then [idOf(xs[2])] else [])
          + (if clubOf(xs[3]) == k then [idOf(xs[3])] else [])
  {
    assert xs[1..][1..] == xs[2..] && xs[2..][1..] == xs[3..] && xs[3..][1..] == [];
    assert ChildIds(xs[3..], idOf, clubOf, k) == (if clubOf(xs[3]) == k then [idOf(xs[3])] else []) + [];
    assert ChildIds(xs[2..], idOf, clubOf, k) == (if clubOf(xs[2]) == k then [idOf(xs[2])] else []) + ChildIds(xs[3..], idOf, clubOf, k);
    assert ChildIds(xs[1..], idOf, clubOf, k) == (if clubOf(xs[1]) == k then [idOf(xs[1])] else []) + ChildIds(xs[2..], idOf, clubOf, k);
  }

  /** `Consistent`, with the club condition stated position by position. */
  lemma ConsistentByIndex(s: Store)
    requires forall i :: 0 <= i < |s.clubs| ==> ClubListsMatch(s, s.clubs[i]) && s.clubs[i].id != ""
    requires SharedIdsShareClub(s.events, EventId, EventClubId)
    requires SharedIdsShareClub(s.ideas, IdeaId, IdeaClubId)
    ensures Consistent(s)
  {
    forall c | c in s.clubs ensures ClubListsMatch(s, c) && c.id != "" {
      var i :| 0 <= i < |s.clubs| && s.clubs[i] == c;
    }
  }

  /** Sample events whose ids agree are the same record. */
  lemma SampleEventIdsDistinct()
    ensures SharedIdsShareClub(SampleEvents, EventId, EventClubId)
  {
    var ev := SampleEvents;
    assert forall e | e in ev :: e == ev[0] || e == ev[1] || e == ev[2] || e == ev[3];
  }

  /** Sample ideas whose ids agree are the same record. */
  lemma SampleIdeaIdsDistinct()
    ensures SharedIdsShareClub(SampleIdeas, IdeaId, IdeaClubId)
  {
    var id := SampleIdeas;
    assert forall i | i in id :: i == id[0] || i == id[1] || i == id[2] || i == id[3];
  }

  /** The sample events' ids, grouped by the club each belongs to. */
  lemma SampleEventsByClub()
    ensures ChildIds(SampleEvents, EventId, EventClubId, "1") == ["1", "3"]
    ensures ChildIds(SampleEvents, EventId, EventClubId, "2") == ["2"]
    ensures ChildIds(SampleEvents, EventId, EventClubId, "3") == ["4"]
  {
    ChildIdsOfFour(SampleEvents, EventId, EventClubId, "1");
    ChildIdsOfFour(SampleEvents, EventId, EventClubId, "2");
    ChildIdsOfFour(SampleEvents, EventId, EventClubId, "3");
  }

  /** The sample ideas' ids, grouped by the club each belongs to. */
  lemma SampleIdeasByClub()
    ensures ChildIds(SampleIdeas, IdeaId, IdeaClubId, "1") == ["1", "2"]
    ensures ChildIds(SampleIdeas, IdeaId, IdeaClubId, "2") == ["3"]
    ensures ChildIds(SampleIdeas, IdeaId, IdeaClubId, "3") == ["4"]
  {
    ChildIdsOfFour(SampleIdeas, IdeaId, IdeaClubId, "1");
    ChildIdsOfFour(SampleIdeas, IdeaId, IdeaClubId, "2");
    ChildIdsOfFour(SampleIdeas, IdeaId, IdeaClubId, "3");
  }

  /** Each sample club's lists name exactly its sample children, in order. */
  lemma SampleClubsMatch()
    ensures forall i :: 0 <= i < |SampleClubs| ==> ClubListsMatch(Seed(), SampleClubs[i]) && SampleClubs[i].id != ""
  {
    SampleEventsByClub();
    SampleIdeasByClub();
  }

  /** The store the provider loads satisfies the relationship invariant. */
  lemma SeedIsConsistent()
    ensures Consistent(Seed())
  {
    SampleClubsMatch();
    SampleEventIdsDistinct();
    SampleIdeaIdsDistinct();
    ConsistentByIndex(Seed());
  }

  /** Creating an event with a fresh id keeps the store consistent. */
  lemma CreateEventKeepsConsistency(s: Store, d: EventDraft, generatedId: string)
    requires Consistent(s)
    requires forall e | e in s.events :: e.id != d.id.GetOr(generatedId)
    ensures Consistent(CreateEvent(s, d, generatedId).store)
  {
    var r := CreateEvent(s, d, generatedId);
    var t := r.store;
    forall c' | c' in t.clubs ensures ClubListsMatch(t, c') && c'.id != "" {
      var i :| 0 <= i < |t.clubs| && t.clubs[i] == c';
      var c := s.clubs[i];
      assert ClubListsMatch(s, c);
      ChildIdsAppend(s.events, r.record, EventId, EventClubId, c.id);
    }
  }

  /** Creating an idea with a fresh id keeps the store consistent. */
  lemma CreateIdeaKeepsConsistency(s: Store, d: IdeaDraft, generatedId: string, today: string)
    requires Consistent(s)
    requires forall i | i in s.ideas :: i.id != d.id.GetOr(generatedId)
    ensures Consistent(CreateIdea(s, d, generatedId, today).store)
  {
    var r := CreateIdea(s, d, generatedId, today);
    var t := r.store;
    forall c' | c' in t.clubs ensures ClubListsMatch(t, c') && c'.id != "" {
      var i :| 0 <= i < |t.clubs| && t.clubs[i] == c';
      var c := s.clubs[i];
      assert ClubListsMatch(s, c);
      ChildIdsAppend(s.ideas, r.record, IdeaId, IdeaClubId, c.id);
    }
  }

  /** After deleting record `x`'s id, club `k`'s recomputed list is its old
      list without that id when `k` owns `x`, and unchanged otherwise. */
  lemma ChildListAfterDelete<T(!new)>(xs: seq<T>, idOf: T -> string, clubOf: T -> string, x: T, k: string)
    requires SharedIdsShareClub(xs, idOf, clubOf) && x in xs
    ensures ChildIds(Filter(IdIsNot(idOf, idOf(x)), xs), idOf, clubOf, k)
         == if k == clubOf(x) then Filter(IsNot(idOf(x)), ChildIds(xs, idOf, clubOf, k)) else ChildIds(xs, idOf, clubOf, k)
  {
    ChildIdsWithout(xs, idOf, clubOf, idOf(x), k);
    if k != clubOf(x) {
      ChildIdsOmit(xs, idOf, clubOf, idOf(x), k);
      StripAbsentId(ChildIds(xs, idOf, clubOf, k), idOf(x));
    }
  }

  /** After deleting the event `e`'s id, a club's recomputed list is its
      old list without that id when it owns `e`, and unchanged otherwise. */
  lemma EventListAfterDelete(s: Store, e: Event, c: Club)
    requires ClubListsMatch(s, c) && SharedIdsShareClub(s.events, EventId, EventClubId) && e in s.events
    ensures ChildIds(Filter(IdIsNot(EventId, e.id), s.events), EventId, EventClubId, c.id)
         == if c.id == e.clubId then Filter(IsNot(e.id), c.events) else c.events
  {
    ChildListAfterDelete(s.events, EventId, EventClubId, e, c.id);
  }

  lemma IdeaListAfterDelete(s: Store, idea: Idea, c: Club)
    requires ClubListsMatch(s, c) && SharedIdsShareClub(s.ideas, IdeaId, IdeaClubId) && idea in s.ideas
    ensures ChildIds(Filter(IdIsNot(IdeaId, idea.id), s.ideas), IdeaId, IdeaClubId, c.id)
         == if c.id == idea.clubId then Filter(IsNot(idea.id), c.ideas) else c.ideas
  {
    ChildListAfterDelete(s.ideas, IdeaId, IdeaClubId, idea, c.id);
  }

  /** Deleting an event (present or not) keeps the store consistent. */
  lemma DeleteEventKeepsConsistency(s: Store, id: string)
    requires Consistent(s)
    ensures Consistent(DeleteEvent(s, id))
  {
    var t := DeleteEvent(s, id);
    match Find(HasId(EventId, id), s.events)
    case None =>
      DeleteAbsentEventIsNoOp(s, id);
    case Some(e) =>
      forall c' | c' in t.clubs ensures ClubListsMatch(t, c') && c'.id != "" {
        var i :| 0 <= i < |t.clubs| && t.clubs[i] == c';
        assert ClubListsMatch(s, s.clubs[i]);
        EventListAfterDelete(s, e, s.clubs[i]);
      }
  }

  /** Deleting an idea (present or not) keeps the store consistent. */
  lemma DeleteIdeaKeepsConsistency(s: Store, id: string)
    requires Consistent(s)
    ensures Consistent(DeleteIdea(s, id))
  {
    var t := DeleteIdea(s, id);
    match Find(HasId(IdeaId, id), s.ideas)
    case None =>
      DeleteAbsentIdeaIsNoOp(s, id);
    case Some(idea) =>
      forall c' | c' in t.clubs ensures ClubListsMatch(t, c') && c'.id != "" {
        var i :| 0 <= i < |t.clubs| && t.clubs[i] == c';
        assert ClubListsMatch(s, s.clubs[i]);
        IdeaListAfterDelete(s, idea, s.clubs[i]);
      }
  }

  /** Voting never touches ids or club references, so consistency holds. */
  lemma VoteIdeaKeepsConsistency(s: Store, id: string)
    requires Consistent(s)
    ensures Consistent(VoteIdea(s, id))
  {
    var t := VoteIdea(s, id);
    forall c | c in t.clubs ensures ClubListsMatch(t, c) {
      assert ClubListsMatch(s, c);
      ChildIdsUnderMap(s.ideas, VoteIf(id), IdeaId, IdeaClubId, c.id);
    }
    SharedIdsUnderMap(s.ideas, VoteIf(id), IdeaId, IdeaClubId);
  }

  /** An event update that leaves `id` and `clubId` alone keeps consistency. */
  lemma UpdateEventKeepsConsistency(s: Store, id: string, p: EventPatch)
    requires Consistent(s)
    requires p.id.None? && p.clubId.None?
    ensures Consistent(UpdateEvent(s, id, p))
  {
    var t := UpdateEvent(s, id, p);
    forall c | c in t.clubs ensures ClubListsMatch(t, c) {
      assert ClubListsMatch(s, c);
      ChildIdsUnderMap(s.events, MergeEventIf(id, p), EventId, EventClubId, c.id);
    }
    SharedIdsUnderMap(s.events, MergeEventIf(id, p), EventId, EventClubId);
  }

  /** An idea update that leaves `id` and `clubId` alone keeps consistency. */
  lemma UpdateIdeaKeepsConsistency(s: Store, id: string, p: IdeaPatch)
    requires Consistent(s)
    requires p.id.None? && p.clubId.None?
    ensures Consistent(UpdateIdea(s, id, p))
  {
    var t := UpdateIdea(s, id, p);
    forall c | c in t.clubs ensures ClubListsMatch(t, c) {
      assert ClubListsMatch(s, c);
      ChildIdsUnderMap(s.ideas, MergeIdeaIf(id, p), IdeaId, IdeaClubId, c.id);
    }
    SharedIdsUnderMap(s.ideas, MergeIdeaIf(id, p), IdeaId, IdeaClubId);
  }

  /** A club update that leaves `id`, `events` and `ideas` alone keeps
      consistency. */
  lemma UpdateClubKeepsConsistency(s: Store, id: string, p: ClubPatch)
    requires Consistent(s)
    requires p.id.None? && p.events.None? && p.ideas.None?
    ensures Consistent(UpdateClub(s, id, p))
  {
    var t := UpdateClub(s, id, p);
    forall c' | c' in t.clubs ensures ClubListsMatch(t, c') && c'.id != "" {
      var i :| 0 <= i < |t.clubs| && t.clubs[i] == c';
      assert ClubListsMatch(s, s.clubs[i]);
    }
  }

  /** Creating a club whose id no event or idea points to keeps consistency. */
  lemma CreateClubKeepsConsistency(s: Store, d: ClubDraft, generatedId: string, today: string)
    requires Consistent(s)
    requires d.id.GetOr(generatedId) != ""
    requires forall e | e in s.events :: e.clubId != d.id.GetOr(generatedId)
    requires forall i | i in s.ideas :: i.clubId != d.id.GetOr(generatedId)
    ensures Consistent(CreateClub(s, d, generatedId, today).store)
  {
    var r := CreateClub(s, d, generatedId, today);
    ChildIdsNone(s.events, EventId, EventClubId, r.record.id);
    ChildIdsNone(s.ideas, IdeaId, IdeaClubId, r.record.id);
  }

  /** Deleting a club keeps the remaining clubs consistent, but children of
      the deleted club keep pointing at it. */
  lemma DeleteClubLeavesDanglingChildren(s: Store, id: string, e: Event)
    requires Consistent(s)
    requires e in s.events && e.clubId == id
    ensures Consistent(DeleteClub(s, id))
    ensures e in DeleteClub(s, id).events
    ensures forall c | c in DeleteClub(s, id).clubs :: c.id != e.clubId
  {
  }

  // ---------------------------------------------------------------------
  // Round trips

  /** A consistent store lists a fresh id in no club. */
  lemma FreshEventIdUnlisted(s: Store, id: string)
    requires Consistent(s)
    requires forall e | e in s.events :: e.id != id
    ensures forall c | c in s.clubs :: id !in c.events
  {
    forall c | c in s.clubs ensures id !in c.events {
      assert ClubListsMatch(s, c);
      ChildIdsOmit(s.events, EventId, EventClubId, id, c.id);
    }
  }

  lemma FreshIdeaIdUnlisted(s: Store, id: string)
    requires Consistent(s)
    requires forall i | i in s.ideas :: i.id != id
    ensures forall c | c in s.clubs :: id !in c.ideas
  {
    forall c | c in s.clubs ensures id !in c.ideas {
      assert ClubListsMatch(s, c);
      ChildIdsOmit(s.ideas, IdeaId, IdeaClubId, id, c.id);
    }
  }

  /** Stripping an id just appended to a list that lacked it restores the
      club. */
  lemma StripUndoesAppendEvent(c: Club, clubId: string, id: string)
    requires id !in c.events
    ensures StripEventFrom(clubId, id)(AppendEventTo(clubId, id)(c)) == c
  {
    if c.id == clubId {
      assert [id][1..] == [];
      FilterAppend(IsNot(id), c.events, [id]);
      StripAbsentId(c.events, id);
    }
  }

  lemma StripUndoesAppendEvents(clubs: seq<Club>, clubId: string, id: string)
    requires forall c | c in clubs :: id !in c.events
    ensures Map(StripEventFrom(clubId, id), Map(AppendEventTo(clubId, id), clubs)) == clubs
  {
    var back := Map(StripEventFrom(clubId, id), Map(AppendEventTo(clubId, id), clubs));
    forall i | 0 <= i < |clubs| ensures back[i] == clubs[i] {
      StripUndoesAppendEvent(clubs[i], clubId, id);
    }
  }

  lemma StripUndoesAppendIdea(c: Club, clubId: string, id: string)
    requires id !in c.ideas
    ensures StripIdeaFrom(clubId, id)(AppendIdeaTo(clubId, id)(c)) == c
  {
    if c.id == clubId {
      assert [id][1..] == [];
      FilterAppend(IsNot(id), c.ideas, [id]);
      StripAbsentId(c.ideas, id);
    }
  }

  lemma StripUndoesAppendIdeas(clubs: seq<Club>, clubId: string, id: string)
    requires forall c | c in clubs :: id !in c.ideas
    ensures Map(StripIdeaFrom(clubId, id), Map(AppendIdeaTo(clubId, id), clubs)) == clubs
  {
    var back := Map(StripIdeaFrom(clubId, id), Map(AppendIdeaTo(clubId, id), clubs));
    forall i | 0 <= i < |clubs| ensures back[i] == clubs[i] {
      StripUndoesAppendIdea(clubs[i], clubId, id);
    }
  }

  /** Filtering a fresh record's id out after appending it gives back the
      original sequence. */
  lemma FilterUndoesAppend<T(!new)>(xs: seq<T>, x: T, idOf: T -> string)
    requires forall y | y in xs :: idOf(y) != idOf(x)
    ensures Filter(IdIsNot(idOf, idOf(x)), xs + [x]) == xs
  {
    assert [x][1..] == [];
    FilterAppend(IdIsNot(idOf, idOf(x)), xs, [x]);
    FilterKeepsAll(IdIsNot(idOf, idOf(x)), xs);
  }

  /** Creating an event under a fresh id and deleting that id restores the
      store exactly. */
  lemma CreateThenDeleteEvent(s: Store, d: EventDraft, generatedId: string)
    requires Consistent(s)
    requires forall e | e in s.events :: e.id != d.id.GetOr(generatedId)
    ensures DeleteEvent(CreateEvent(s, d, generatedId).store, d.id.GetOr(generatedId)) == s
  {
    var id := d.id.GetOr(generatedId);
    var r := CreateEvent(s, d, generatedId);
    FreshEventIdUnlisted(s, id);
    FindAfterAppend(HasId(EventId, id), s.events, r.record);
    FilterUndoesAppend(s.events, r.record, EventId);
    if d.clubId != "" {
      StripUndoesAppendEvents(s.clubs, d.clubId, id);
    }
  }

  /** Creating an idea under a fresh id and deleting that id restores the
      store exactly. */
  lemma CreateThenDeleteIdea(s: Store, d: IdeaDraft, generatedId: string, today: string)
    requires Consistent(s)
    requires forall i | i in s.ideas :: i.id != d.id.GetOr(generatedId)
    ensures DeleteIdea(CreateIdea(s, d, generatedId, today).store, d.id.GetOr(generatedId)) == s
  {
    var id := d.id.GetOr(generatedId);
    var r := CreateIdea(s, d, generatedId, today);
    FreshIdeaIdUnlisted(s, id);
    FindAfterAppend(HasId(IdeaId, id), s.ideas, r.record);
    FilterUndoesAppend(s.ideas, r.record, IdeaId);
    if d.clubId != "" {
      StripUndoesAppendIdeas(s.clubs, d.clubId, id);
    }
  }

  /** Reusing an id that is already taken breaks the round trip: deleting
      the new event also deletes the older one. */
  lemma StaleIdCreateThenDeleteLosesOlder(s: Store, d: EventDraft, generatedId: string, older: Event)
    requires older in s.events && older.id == d.id.GetOr(generatedId)
    ensures older !in DeleteEvent(CreateEvent(s, d, generatedId).store, older.id).events
    ensures DeleteEvent(CreateEvent(s, d, generatedId).store, older.id).events != s.events
  {
  }

  /** Deleting an id no event has changes nothing. */
  lemma DeleteAbsentEventIsNoOp(s: Store, id: string)
    requires forall e | e in s.events :: e.id != id
    ensures DeleteEvent(s, id) == s
  {
    FilterKeepsAll(IdIsNot(EventId, id), s.events);
  }

  lemma DeleteAbsentIdeaIsNoOp(s: Store, id: string)
    requires forall i | i in s.ideas :: i.id != id
    ensures DeleteIdea(s, id) == s
  {
    FilterKeepsAll(IdIsNot(IdeaId, id), s.ideas);
  }

  /** Voting for an id no idea has changes nothing. */
  lemma VoteAbsentIdeaIsNoOp(s: Store, id: string)
    requires forall i | i in s.ideas :: i.id != id
    ensures VoteIdea(s, id) == s
  {
    assert VoteIdea(s, id).ideas == s.ideas;
  }

  /** A created event is found again by its id when that id was fresh. */
  lemma CreatedEventIsFound(s: Store, d: EventDraft, generatedId: string)
    requires forall e | e in s.events :: e.id != d.id.GetOr(generatedId)
    ensures GetEventById(CreateEvent(s, d, generatedId).store, d.id.GetOr(generatedId))
         == Some(CreateEvent(s, d, generatedId).record)
  {
  }
}
