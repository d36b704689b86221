/** What the list pages share: the case-insensitive search test, the club
    name lookup, and the order on dates.

    A date is an ISO `YYYY-MM-DD` string. The pages compare dates by
    subtracting `new Date(...)` values; for well-formed ISO dates that is
    the lexicographic order on the strings, which is what `DateLeq` uses. */
module PageCommon {
  import opened Wrappers
  import opened Seqs
  import opened Text
  import opened Entities
  import opened Sorting

  /** `field.toLowerCase().includes(term.toLowerCase())`. */
  predicate Mentions(field: string, term: string) {
    Contains(Lower(field), Lower(term))
  }

  const UnknownClub := "Unknown Club"

  function IdIs(clubId: string): Club -> bool {
    (c: Club) => c.id == clubId
  }

  /** `clubs.find(c => c.id === clubId)?.name`, or 'Unknown Club'. */
  function GetClubName(clubs: seq<Club>, clubId: string): (r: string)
    ensures (forall c | c in clubs :: c.id != clubId) ==> r == UnknownClub
    ensures (exists c | c in clubs :: c.id == clubId) ==>
      exists i :: 0 <= i < |clubs| && clubs[i].id == clubId && r == clubs[i].name
        && forall j :: 0 <= j < i ==> clubs[j].id != clubId
  {
    match IndexOf(IdIs(clubId), clubs)
    case None => UnknownClub
    case Some(i) => clubs[i].name
  }

  /** `new Date(a) - new Date(b) <= 0` on ISO dates. */
  predicate DateLeq(a: string, b: string) {
    !LexLess(b, a)
  }

  /** Dates are totally preordered: any two compare one way or the other,
      and the order is transitive. An earlier date is `DateLeq` a later one
      and not the other way round. */
  lemma DateLeqIsOrder(a: string, b: string, c: string)
    ensures DateLeq(a, b) || DateLeq(b, a)
    ensures DateLeq(a, b) && DateLeq(b, c) ==> DateLeq(a, c)
    ensures DateLeq(a, b) <==> a == b || LexLess(a, b)
  {
    LexLessTotal(a, b);
    LexLessTotal(b, c);
    LexLessTotal(a, c);
    LexLessIrreflexive(a);
    if LexLess(a, b) {
      LexLessAsymmetric(a, b);
    }
    if LexLess(b, a) {
      LexLessAsymmetric(b, a);
    }
    if DateLeq(a, b) && DateLeq(b, c) && a != b && b != c {
      LexLessTransitive(a, b, c);
      LexLessAsymmetric(a, c);
    }
  }

  predicate IsUpcoming(e: Event) {
    e.status == "upcoming"
  }

  /** `(a, b) => new Date(a.date) - new Date(b.date)` returns a value <= 0. */
  predicate EarlierEvent(a: Event, b: Event) {
    DateLeq(a.date, b.date)
  }

  /** Ordering events by date is a consistent comparator. */
  lemma EarlierEventIsPreorder(xs: seq<Event>)
    ensures PreorderOn(EarlierEvent, xs)
  {
    forall a, b | a in xs && b in xs ensures EarlierEvent(a, b) || EarlierEvent(b, a) {
      DateLeqIsOrder(a.date, b.date, b.date);
    }
    forall a, b, c | a in xs && b in xs && c in xs && EarlierEvent(a, b) && EarlierEvent(b, c)
      ensures EarlierEvent(a, c)
    {
      DateLeqIsOrder(a.date, b.date, c.date);
    }
  }
}
