/** The home page's three short lists: the first clubs, the next upcoming
    events and the most voted ideas. */
module HomePage {
  import opened Seqs
  import opened Sorting
  import opened Entities
  import opened PageCommon

  /** How many items each list shows. */
  const ShownCount: nat := 3

  /** `clubs.slice(0, 3)`: the first three clubs in stored order. */
  function FeaturedClubs(clubs: seq<Club>): (r: seq<Club>)
    ensures r <= clubs
    ensures |r| == if |clubs| < ShownCount then |clubs| else ShownCount
  {
    Take(clubs, ShownCount)
  }

  /** The upcoming events sorted by date, first three. */
  function UpcomingEvents(events: seq<Event>): (r: seq<Event>)
    ensures |r| <= ShownCount
  {
    Take(Sort(EarlierEvent, Filter(IsUpcoming, events)), ShownCount)
  }

  /** The list holds up to three upcoming events (fewer only when fewer are
      stored), in date order, and no upcoming event left out is dated before
      one that is shown. */
  lemma UpcomingEventsAreTheEarliest(events: seq<Event>)
    ensures var r := UpcomingEvents(events);
      && (forall e | e in r :: e in events && IsUpcoming(e))
      && |r| == (if |Filter(IsUpcoming, events)| < ShownCount then |Filter(IsUpcoming, events)| else ShownCount)
      && (forall i, j | 0 <= i < j < |r| :: DateLeq(r[i].date, r[j].date))
      && (forall x, e | x in r && e in events && IsUpcoming(e) && e !in r :: DateLeq(x.date, e.date))
  {
    var up := Filter(IsUpcoming, events);
    var r := UpcomingEvents(events);
    EarlierEventIsPreorder(up);
    SortedPrefixIsSmallest(EarlierEvent, up, ShownCount);
    assert |Sort(EarlierEvent, up)| == |up|;
    forall e | e in r ensures e in events && IsUpcoming(e) {
      assert e in up;
    }
    forall i, j | 0 <= i < j < |r| ensures DateLeq(r[i].date, r[j].date) {
      assert EarlierEvent(r[i], r[j]);
    }
    forall x, e | x in r && e in events && IsUpcoming(e) && e !in r ensures DateLeq(x.date, e.date) {
      assert e in up;
      assert EarlierEvent(x, e);
    }
  }

  /** `b.votes - a.votes` returns a value <= 0: more votes first. */
  predicate MoreVotes(a: Idea, b: Idea) {
    a.votes >= b.votes
  }

  lemma MoreVotesIsPreorder(xs: seq<Idea>)
    ensures PreorderOn(MoreVotes, xs)
  {
  }

  /** The top ideas computed on a copy of the list, leaving the store's
      order alone. */
  function TopIdeas(ideas: seq<Idea>): (r: seq<Idea>)
    ensures |r| == if |ideas| < ShownCount then |ideas| else ShownCount
  {
    Take(Sort(MoreVotes, ideas), ShownCount)
  }

  /** The top ideas are stored ideas in descending vote order, and no idea
      left out has more votes than one that is shown. */
  lemma TopIdeasHaveMostVotes(ideas: seq<Idea>)
    ensures var r := TopIdeas(ideas);
      && (forall x | x in r :: x in ideas)
      && (forall i, j | 0 <= i < j < |r| :: r[i].votes >= r[j].votes)
      && (forall x, e | x in r && e in ideas && e !in r :: x.votes >= e.votes)
  {
    var r := TopIdeas(ideas);
    MoreVotesIsPreorder(ideas);
    SortedPrefixIsSmallest(MoreVotes, ideas, ShownCount);
    forall i, j | 0 <= i < j < |r| ensures r[i].votes >= r[j].votes {
      assert MoreVotes(r[i], r[j]);
    }
    forall x, e | x in r && e in ideas && e !in r ensures x.votes >= e.votes {
      assert MoreVotes(x, e);
    }
  }

  /** The page as written: `ideas.sort(...)` sorts the store's own array in
      place before slicing, so rendering the page leaves the store's ideas
      reordered by votes. The pair is (the store's ideas afterwards, the
      ideas shown). */
  function RenderTopIdeas(ideas: seq<Idea>): (r: (seq<Idea>, seq<Idea>))
    ensures multiset(r.0) == multiset(ideas)
    ensures r.1 <= r.0
  {
    var sorted := Sort(MoreVotes, ideas);
    (sorted, Take(sorted, ShownCount))
  }

  /** Rendering shows the same ideas as `TopIdeas`, but a store whose ideas
      are not already in vote order comes out reordered: two ideas with 0
      and 1 votes swap places. */
  lemma RenderTopIdeasReordersStore()
    ensures forall ideas :: RenderTopIdeas(ideas).1 == TopIdeas(ideas)
    ensures var a := Idea("1", "", "", "", "", "", 0, "", []);
      var b := Idea("2", "", "", "", "", "", 1, "", []);
      RenderTopIdeas([a, b]).0 == [b, a] != [a, b]
  {
    var a := Idea("1", "", "", "", "", "", 0, "", []);
    var b := Idea("2", "", "", "", "", "", 1, "", []);
    assert Sort(MoreVotes, [b]) == [b];
    assert [a, b][1..] == [b];
  }

  /** What the home page shows. */
  datatype HomeView = HomeView(featuredClubs: seq<Club>, upcomingEvents: seq<Event>, topIdeas: seq<Idea>)

  function Home(clubs: seq<Club>, events: seq<Event>, ideas: seq<Idea>): (v: HomeView)
    ensures |v.featuredClubs| <= ShownCount && |v.upcomingEvents| <= ShownCount && |v.topIdeas| <= ShownCount
  {
    HomeView(FeaturedClubs(clubs), UpcomingEvents(events), TopIdeas(ideas))
  }
}
