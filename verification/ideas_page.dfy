/** The ideas list page: its own status badge colours and the filtered list
    it shows for a search term, a status and a club (each filter is off
    while its control is empty). */
module IdeasPage {
  import opened Seqs
  import opened Entities
  import opened PageCommon
  import Helpers

  /** The page's own `getStatusColor`, which knows only the three idea
      statuses of the creation flow. */
  function IdeaStatusColor(status: string): (r: string)
    ensures r in {"warning", "info", "success", "secondary"}
  {
    match status
    case "proposed" => "warning"
    case "in-progress" => "info"
    case "approved" => "success"
    case _ => "secondary"
  }

  /** The page's colours agree with the shared helper's except on the three
      statuses the page does not list but the helper colours: 'rejected',
      'upcoming' and 'cancelled', which the page shows as 'secondary'. */
  lemma IdeaStatusColorVersusHelper(status: string)
    ensures IdeaStatusColor(status) == Helpers.GetStatusColor(status)
      <==> status != "rejected" && status != "upcoming" && status != "cancelled"
    ensures status == "rejected" ==> IdeaStatusColor(status) == "secondary" && Helpers.GetStatusColor(status) == "danger"
  {
  }

  /** The search test: the term occurs, ignoring case, in the title, the
      description or the creator's name. */
  function MatchesSearch(term: string): Idea -> bool {
    (i: Idea) => Mentions(i.title, term) || Mentions(i.description, term) || Mentions(i.creator, term)
  }

  function HasStatus(status: string): Idea -> bool {
    (i: Idea) => i.status == status
  }

  /** The three filters the effect applies one after the other. */
  function FilterIdeas(ideas: seq<Idea>, term: string, status: string, clubId: string): (r: seq<Idea>)
    ensures forall i | i in r :: i in ideas
    ensures term == [] && status == [] && clubId == [] ==> r == ideas
  {
    var bySearch := if term != [] then Filter(MatchesSearch(term), ideas) else ideas;
    var byStatus := if status != [] then Filter(HasStatus(status), bySearch) else bySearch;
    if clubId != [] then Filter(InClub(IdeaClubId, clubId), byStatus) else byStatus
  }

  /** The page's test for one idea, stated on its own: every control that is
      set accepts it. */
  predicate IdeaShown(i: Idea, term: string, status: string, clubId: string) {
    && (term == [] || Mentions(i.title, term) || Mentions(i.description, term) || Mentions(i.creator, term))
    && (status == [] || i.status == status)
    && (clubId == [] || i.clubId == clubId)
  }

  function IdeaShownFor(term: string, status: string, clubId: string): Idea -> bool {
    (i: Idea) => IdeaShown(i, term, status, clubId)
  }

  /** The three passes are one filter on `IdeaShown`: the page lists exactly
      the ideas every set control accepts, in their stored order. */
  lemma FilterIdeasIsOnePass(ideas: seq<Idea>, term: string, status: string, clubId: string)
    ensures FilterIdeas(ideas, term, status, clubId) == Filter(IdeaShownFor(term, status, clubId), ideas)
  {
    var p1 := When(term != [], MatchesSearch(term));
    var p2 := When(status != [], HasStatus(status));
    var p3 := When(clubId != [], InClub(IdeaClubId, clubId));
    var bySearch := if term != [] then Filter(MatchesSearch(term), ideas) else ideas;
    var byStatus := if status != [] then Filter(HasStatus(status), bySearch) else bySearch;
    FilterWhen(term != [], MatchesSearch(term), ideas);
    assert bySearch == Filter(p1, ideas);
    FilterWhen(status != [], HasStatus(status), bySearch);
    FilterTwice(p1, p2, ideas);
    assert byStatus == Filter(Both(p1, p2), ideas);
    FilterWhen(clubId != [], InClub(IdeaClubId, clubId), byStatus);
    FilterTwice(Both(p1, p2), p3, ideas);
    assert FilterIdeas(ideas, term, status, clubId) == Filter(Both(Both(p1, p2), p3), ideas);
    forall k | 0 <= k < |ideas|
      ensures Both(Both(p1, p2), p3)(ideas[k]) == IdeaShownFor(term, status, clubId)(ideas[k])
    {
      ShownIsConjunction(ideas[k], term, status, clubId);
    }
    FilterExt(Both(Both(p1, p2), p3), IdeaShownFor(term, status, clubId), ideas);
  }

  lemma ShownIsConjunction(i: Idea, term: string, status: string, clubId: string)
    ensures Both(Both(When(term != [], MatchesSearch(term)), When(status != [], HasStatus(status))),
                 When(clubId != [], InClub(IdeaClubId, clubId)))(i)
      == IdeaShown(i, term, status, clubId)
  {
  }

  /** An idea is listed exactly when it is stored and every set control
      accepts it, and the list keeps the stored order. */
  lemma FilteredIdeasAreTheShownOnes(ideas: seq<Idea>, term: string, status: string, clubId: string)
    ensures forall i :: i in FilterIdeas(ideas, term, status, clubId) <==> i in ideas && IdeaShown(i, term, status, clubId)
    ensures IsSubsequence(FilterIdeas(ideas, term, status, clubId), ideas)
  {
    FilterIdeasIsOnePass(ideas, term, status, clubId);
    FilterIsSubsequence(IdeaShownFor(term, status, clubId), ideas);
  }
}
