/** The clubs list page: the category choices it offers and the clubs that
    pass the search and category filters. */
module ClubsPage {
  import opened Seqs
  import opened Entities
  import opened PageCommon

  /** The choice that switches the category filter off. */
  const AllCategories := "All"

  function CategoryOf(c: Club): string {
    c.category
  }

  /** `['All', ...new Set(clubs.map(club => club.category))]`. */
  function Categories(clubs: seq<Club>): (r: seq<string>)
    ensures |r| >= 1 && r[0] == AllCategories
    ensures NoDuplicates(r[1..])
    ensures forall k :: k in r[1..] <==> exists c | c in clubs :: c.category == k
  {
    var cats := Map(CategoryOf, clubs);
    var d := Distinct(cats);
    assert forall k :: k in cats <==> exists c | c in clubs :: c.category == k by {
      forall k ensures k in cats <==> exists c | c in clubs :: c.category == k {
        if exists c | c in clubs :: c.category == k {
          var c :| c in clubs && c.category == k;
          var i :| 0 <= i < |clubs| && clubs[i] == c;
          assert cats[i] == k;
        }
      }
    }
    assert ([AllCategories] + d)[1..] == d;
    [AllCategories] + d
  }

  /** The categories after 'All' come in the order in which the clubs first
      use them. */
  lemma CategoriesInFirstUseOrder(clubs: seq<Club>)
    ensures var r := Categories(clubs)[1..];
      forall i, j | 0 <= i < j < |r| ::
        FirstIndex(Map(CategoryOf, clubs), r[i]) < FirstIndex(Map(CategoryOf, clubs), r[j])
  {
    var d := Distinct(Map(CategoryOf, clubs));
    assert Categories(clubs)[1..] == d;
    DistinctKeepsFirstOccurrenceOrder(Map(CategoryOf, clubs));
  }

  /** The search test: the term occurs, ignoring case, in the name or the
      description. */
  function MatchesSearch(term: string): Club -> bool {
    (c: Club) => Mentions(c.name, term) || Mentions(c.description, term)
  }

  function HasCategory(category: string): Club -> bool {
    (c: Club) => c.category == category
  }

  /** The category filter is on unless the choice is empty or 'All'. */
  predicate FiltersCategory(category: string) {
    category != [] && category != AllCategories
  }

  /** The two filters the effect applies one after the other. */
  function FilterClubs(clubs: seq<Club>, term: string, category: string): (r: seq<Club>)
    ensures forall c | c in r :: c in clubs
    ensures term == [] && !FiltersCategory(category) ==> r == clubs
  {
    var bySearch := if term != [] then Filter(MatchesSearch(term), clubs) else clubs;
    if FiltersCategory(category) then Filter(HasCategory(category), bySearch) else bySearch
  }

  /** The page's test for one club, stated on its own. */
  predicate ClubShown(c: Club, term: string, category: string) {
    && (term == [] || Mentions(c.name, term) || Mentions(c.description, term))
    && (category == [] || category == AllCategories || c.category == category)
  }

  function ClubShownFor(term: string, category: string): Club -> bool {
    (c: Club) => ClubShown(c, term, category)
  }

  lemma ShownIsConjunction(c: Club, term: string, category: string)
    ensures Both(When(term != [], MatchesSearch(term)), When(FiltersCategory(category), HasCategory(category)))(c)
      == ClubShown(c, term, category)
  {
  }

  /** The two passes are one filter on `ClubShown`. */
  lemma FilterClubsIsOnePass(clubs: seq<Club>, term: string, category: string)
    ensures FilterClubs(clubs, term, category) == Filter(ClubShownFor(term, category), clubs)
  {
    var p1 := When(term != [], MatchesSearch(term));
    var p2 := When(FiltersCategory(category), HasCategory(category));
    var bySearch := if term != [] then Filter(MatchesSearch(term), clubs) else clubs;
    FilterWhen(term != [], MatchesSearch(term), clubs);
    assert bySearch == Filter(p1, clubs);
    FilterWhen(FiltersCategory(category), HasCategory(category), bySearch);
    FilterTwice(p1, p2, clubs);
    assert FilterClubs(clubs, term, category) == Filter(Both(p1, p2), clubs);
    forall k | 0 <= k < |clubs|
      ensures Both(p1, p2)(clubs[k]) == ClubShownFor(term, category)(clubs[k])
    {
      ShownIsConjunction(clubs[k], term, category);
    }
    FilterExt(Both(p1, p2), ClubShownFor(term, category), clubs);
  }

  /** A club is listed exactly when it is stored and both set controls
      accept it, and the list keeps the stored order. */
  lemma FilteredClubsAreTheShownOnes(clubs: seq<Club>, term: string, category: string)
    ensures forall c :: c in FilterClubs(clubs, term, category) <==> c in clubs && ClubShown(c, term, category)
    ensures IsSubsequence(FilterClubs(clubs, term, category), clubs)
  {
    FilterClubsIsOnePass(clubs, term, category);
    FilterIsSubsequence(ClubShownFor(term, category), clubs);
  }

  /** Every category the page offers, picked with an empty search, lists at
      least one club. */
  lemma OfferedCategoryIsNeverEmpty(clubs: seq<Club>, k: string)
    requires k in Categories(clubs)[1..]
    ensures FilterClubs(clubs, [], k) != []
  {
    var c :| c in clubs && c.category == k;
    FilteredClubsAreTheShownOnes(clubs, [], k);
    assert c in FilterClubs(clubs, [], k);
  }
}
