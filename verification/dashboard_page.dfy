/** The dashboard's three lists, recomputed whenever the store's lists
    change: the user's first clubs, the next dated upcoming events and the
    most recently created ideas. */
module DashboardPage {
  import opened Wrappers
  import opened Seqs
  import opened Sorting
  import opened Entities
  import opened PageCommon
  import HomePage

  const ClubCount: nat := 2
  const ListCount: nat := 3

  /** The three lists the page keeps in its state. */
  datatype DashboardLists = DashboardLists(userClubs: seq<Club>, upcomingEvents: seq<Event>, recentIdeas: seq<Idea>)

  /** The lists before the first update. */
  const NoLists := DashboardLists([], [], [])

  /** An upcoming event with a non-empty date. */
  predicate DatedUpcoming(e: Event) {
    IsUpcoming(e) && e.date != []
  }

  predicate HasCreatedAt(i: Idea) {
    i.createdAt != []
  }

  /** `(a, b) => new Date(b.createdAt) - new Date(a.createdAt)` returns a
      value <= 0: the newer idea first. */
  predicate NewerIdea(a: Idea, b: Idea) {
    DateLeq(b.createdAt, a.createdAt)
  }

  lemma NewerIdeaIsPreorder(xs: seq<Idea>)
    ensures PreorderOn(NewerIdea, xs)
  {
    forall a, b | a in xs && b in xs ensures NewerIdea(a, b) || NewerIdea(b, a) {
      DateLeqIsOrder(a.createdAt, b.createdAt, b.createdAt);
    }
    forall a, b, c | a in xs && b in xs && c in xs && NewerIdea(a, b) && NewerIdea(b, c)
      ensures NewerIdea(a, c)
    {
      DateLeqIsOrder(c.createdAt, b.createdAt, a.createdAt);
    }
  }

  function UpcomingWithDates(events: seq<Event>): (r: seq<Event>)
    ensures |r| <= ListCount
  {
    Take(Sort(EarlierEvent, Filter(DatedUpcoming, events)), ListCount)
  }

  function RecentIdeas(ideas: seq<Idea>): (r: seq<Idea>)
    ensures |r| <= ListCount
  {
    Take(Sort(NewerIdea, Filter(HasCreatedAt, ideas)), ListCount)
  }

  /** The effect. A store list that is not an array (`None`) makes it return
      early, keeping the previous lists. */
  function Refresh(prev: DashboardLists, clubs: Option<seq<Club>>, events: Option<seq<Event>>, ideas: Option<seq<Idea>>)
    : (r: DashboardLists)
    ensures clubs.None? || events.None? || ideas.None? ==> r == prev
    ensures clubs.Some? && events.Some? && ideas.Some? ==>
      && r.userClubs <= clubs.value
      && |r.userClubs| == (if |clubs.value| < ClubCount then |clubs.value| else ClubCount)
  {
    if clubs.None? || events.None? || ideas.None? then prev
    else DashboardLists(Take(clubs.value, ClubCount), UpcomingWithDates(events.value), RecentIdeas(ideas.value))
  }

  /** The events list holds dated upcoming events in date order, and no
      dated upcoming event left out is dated before one that is shown. */
  lemma UpcomingWithDatesAreTheEarliest(events: seq<Event>)
    ensures var r := UpcomingWithDates(events);
      && (forall e | e in r :: e in events && IsUpcoming(e) && e.date != [])
      && (forall i, j | 0 <= i < j < |r| :: DateLeq(r[i].date, r[j].date))
      && (forall x, e | x in r && e in events && DatedUpcoming(e) && e !in r :: DateLeq(x.date, e.date))
  {
    var up := Filter(DatedUpcoming, events);
    var r := UpcomingWithDates(events);
    EarlierEventIsPreorder(up);
    SortedPrefixIsSmallest(EarlierEvent, up, ListCount);
    forall e | e in r ensures e in events && IsUpcoming(e) && e.date != [] {
      assert e in up;
    }
    forall i, j | 0 <= i < j < |r| ensures DateLeq(r[i].date, r[j].date) {
      assert EarlierEvent(r[i], r[j]);
    }
    forall x, e | x in r && e in events && DatedUpcoming(e) && e !in r ensures DateLeq(x.date, e.date) {
      assert e in up;
      assert EarlierEvent(x, e);
    }
  }

  /** The ideas list holds ideas with a creation date, newest first, and no
      dated idea left out is newer than one that is shown. */
  lemma RecentIdeasAreTheNewest(ideas: seq<Idea>)
    ensures var r := RecentIdeas(ideas);
      && (forall i | i in r :: i in ideas && i.createdAt != [])
      && (forall i, j | 0 <= i < j < |r| :: DateLeq(r[j].createdAt, r[i].createdAt))
      && (forall x, i | x in r && i in ideas && HasCreatedAt(i) && i !in r :: DateLeq(i.createdAt, x.createdAt))
  {
    var dated := Filter(HasCreatedAt, ideas);
    var r := RecentIdeas(ideas);
    NewerIdeaIsPreorder(dated);
    SortedPrefixIsSmallest(NewerIdea, dated, ListCount);
    forall i | i in r ensures i in ideas && i.createdAt != [] {
      assert i in dated;
    }
    forall i, j | 0 <= i < j < |r| ensures DateLeq(r[j].createdAt, r[i].createdAt) {
      assert NewerIdea(r[i], r[j]);
    }
    forall x, i | x in r && i in ideas && HasCreatedAt(i) && i !in r ensures DateLeq(i.createdAt, x.createdAt) {
      assert i in dated;
      assert NewerIdea(x, i);
    }
  }

  /** When every upcoming event has a date, the dashboard lists the same
      upcoming events as the home page. */
  lemma UpcomingAgreesWithHome(events: seq<Event>)
    requires forall e | e in events && IsUpcoming(e) :: e.date != []
    ensures UpcomingWithDates(events) == HomePage.UpcomingEvents(events)
  {
    FilterExt(DatedUpcoming, IsUpcoming, events);
  }
}
