/** The events list page: the events that pass the search, status and club
    filters, upcoming events first and each group in date order. */
module EventsPage {
  import opened Seqs
  import opened Sorting
  import opened Entities
  import opened PageCommon

  /** The search test: the term occurs, ignoring case, in the name, the
      description or the venue. */
  function MatchesSearch(term: string): Event -> bool {
    (e: Event) => Mentions(e.name, term) || Mentions(e.description, term) || Mentions(e.venue, term)
  }

  function HasStatus(status: string): Event -> bool {
    (e: Event) => e.status == status
  }

  /** The three filters the effect applies one after the other, before
      sorting. */
  function FilterEvents(events: seq<Event>, term: string, status: string, clubId: string): (r: seq<Event>)
    ensures forall e | e in r :: e in events
    ensures term == [] && status == [] && clubId == [] ==> r == events
  {
    var bySearch := if term != [] then Filter(MatchesSearch(term), events) else events;
    var byStatus := if status != [] then Filter(HasStatus(status), bySearch) else bySearch;
    if clubId != [] then Filter(InClub(EventClubId, clubId), byStatus) else byStatus
  }

  /** The page's test for one event, stated on its own: every control that
      is set accepts it. */
  predicate EventShown(e: Event, term: string, status: string, clubId: string) {
    && (term == [] || Mentions(e.name, term) || Mentions(e.description, term) || Mentions(e.venue, term))
    && (status == [] || e.status == status)
    && (clubId == [] || e.clubId == clubId)
  }

  function EventShownFor(term: string, status: string, clubId: string): Event -> bool {
    (e: Event) => EventShown(e, term, status, clubId)
  }

  lemma ShownIsConjunction(e: Event, term: string, status: string, clubId: string)
    ensures Both(Both(When(term != [], MatchesSearch(term)), When(status != [], HasStatus(status))),
                 When(clubId != [], InClub(EventClubId, clubId)))(e)
      == EventShown(e, term, status, clubId)
  {
  }

  /** The three passes are one filter on `EventShown`. */
  lemma FilterEventsIsOnePass(events: seq<Event>, term: string, status: string, clubId: string)
    ensures FilterEvents(events, term, status, clubId) == Filter(EventShownFor(term, status, clubId), events)
  {
    var p1 := When(term != [], MatchesSearch(term));
    var p2 := When(status != [], HasStatus(status));
    var p3 := When(clubId != [], InClub(EventClubId, clubId));
    var bySearch := if term != [] then Filter(MatchesSearch(term), events) else events;
    var byStatus := if status != [] then Filter(HasStatus(status), bySearch) else bySearch;
    FilterWhen(term != [], MatchesSearch(term), events);
    assert bySearch == Filter(p1, events);
    FilterWhen(status != [], HasStatus(status), bySearch);
    FilterTwice(p1, p2, events);
    assert byStatus == Filter(Both(p1, p2), events);
    FilterWhen(clubId != [], InClub(EventClubId, clubId), byStatus);
    FilterTwice(Both(p1, p2), p3, events);
    assert FilterEvents(events, term, status, clubId) == Filter(Both(Both(p1, p2), p3), events);
    forall k | 0 <= k < |events|
      ensures Both(Both(p1, p2), p3)(events[k]) == EventShownFor(term, status, clubId)(events[k])
    {
      ShownIsConjunction(events[k], term, status, clubId);
    }
    FilterExt(Both(Both(p1, p2), p3), EventShownFor(term, status, clubId), events);
  }

  /** The comparator returns a value <= 0: an upcoming event goes before one
      that is not, and otherwise the earlier date goes first. */
  predicate EventLeq(a: Event, b: Event) {
    if IsUpcoming(a) != IsUpcoming(b) then IsUpcoming(a) else DateLeq(a.date, b.date)
  }

  /** The comparator is consistent: total and transitive. */
  lemma EventLeqIsOrder(a: Event, b: Event, c: Event)
    ensures EventLeq(a, b) || EventLeq(b, a)
    ensures EventLeq(a, b) && EventLeq(b, c) ==> EventLeq(a, c)
  {
    DateLeqIsOrder(a.date, b.date, c.date);
  }

  lemma EventLeqIsPreorder(xs: seq<Event>)
    ensures PreorderOn(EventLeq, xs)
  {
    forall a, b | a in xs && b in xs ensures EventLeq(a, b) || EventLeq(b, a) {
      EventLeqIsOrder(a, b, b);
    }
    forall a, b, c | a in xs && b in xs && c in xs && EventLeq(a, b) && EventLeq(b, c)
      ensures EventLeq(a, c)
    {
      EventLeqIsOrder(a, b, c);
    }
  }

  /** The list the page shows. */
  function ListEvents(events: seq<Event>, term: string, status: string, clubId: string): (r: seq<Event>)
    ensures multiset(r) == multiset(FilterEvents(events, term, status, clubId))
  {
    Sort(EventLeq, FilterEvents(events, term, status, clubId))
  }

  /** The page lists exactly the events every set control accepts, each as
      often as it is stored; upcoming events all come first and each group
      is in date order. */
  lemma ListedEventsAreOrdered(events: seq<Event>, term: string, status: string, clubId: string)
    ensures var r := ListEvents(events, term, status, clubId);
      && multiset(r) == multiset(Filter(EventShownFor(term, status, clubId), events))
      && (forall i, j | 0 <= i < j < |r| && IsUpcoming(r[j]) :: IsUpcoming(r[i]))
      && (forall i, j | 0 <= i < j < |r| && IsUpcoming(r[i]) == IsUpcoming(r[j]) :: DateLeq(r[i].date, r[j].date))
  {
    var shown := FilterEvents(events, term, status, clubId);
    var r := ListEvents(events, term, status, clubId);
    FilterEventsIsOnePass(events, term, status, clubId);
    EventLeqIsPreorder(shown);
    SortSorted(EventLeq, shown);
    assert SortedBy(EventLeq, r);
    forall i, j | 0 <= i < j < |r| && IsUpcoming(r[j]) ensures IsUpcoming(r[i]) {
      assert EventLeq(r[i], r[j]);
    }
    forall i, j | 0 <= i < j < |r| && IsUpcoming(r[i]) == IsUpcoming(r[j]) ensures DateLeq(r[i].date, r[j].date) {
      assert EventLeq(r[i], r[j]);
    }
  }

  /** The sort is stable: events the comparator cannot tell apart from `k`
      (same group, same date) keep their stored order. */
  lemma ListedEventsKeepTiesInOrder(events: seq<Event>, term: string, status: string, clubId: string, k: Event)
    ensures Filter(EquivTo(EventLeq, k), ListEvents(events, term, status, clubId))
         == Filter(EquivTo(EventLeq, k), FilterEvents(events, term, status, clubId))
  {
    var shown := FilterEvents(events, term, status, clubId);
    EventLeqIsPreorder([k] + shown);
    SortStable(EventLeq, k, shown);
  }

  /** An event is listed exactly when it is stored and every set control
      accepts it. */
  lemma ListedEventsAreTheShownOnes(events: seq<Event>, term: string, status: string, clubId: string)
    ensures forall e :: e in ListEvents(events, term, status, clubId) <==> e in events && EventShown(e, term, status, clubId)
  {
    var r := ListEvents(events, term, status, clubId);
    FilterEventsIsOnePass(events, term, status, clubId);
    forall e ensures e in r <==> e in events && EventShown(e, term, status, clubId) {
      assert e in r <==> e in multiset(r);
    }
  }
}
