/** The idea service: CRUD, voting and status changes over one stored list
    of ideas. It validates input, rejects a missing id, touches only the
    first matching record and checks a new status against a fixed list.
    The stored list is passed in and the new list handed back; an error
    leaves it untouched. */
module IdeaService {
  import opened Wrappers
  import opened Seqs
  import opened Entities

  datatype Failure = IdeaNotFound | MissingRequiredFields | InvalidStatus

  /** The message each rejection carries. */
  function Message(f: Failure): (m: string)
    ensures m != ""
  {
    match f
    case IdeaNotFound => "Idea not found"
    case MissingRequiredFields => "Missing required fields"
    case InvalidStatus => "Invalid status"
  }

  /** The stored list after a call, and what the call resolves or rejects with. */
  datatype Reply<T> = Reply(storage: seq<Idea>, result: Result<T, Failure>)

  /** The statuses `updateIdeaStatus` accepts. */
  const ValidStatuses: seq<string> := ["proposed", "in-progress", "approved", "rejected"]

  /** `i` is the position `findIndex(idea => idea.id === id)` reports. */
  predicate IsFirstMatch(ideas: seq<Idea>, id: string, i: int) {
    0 <= i < |ideas| && ideas[i].id == id && forall j :: 0 <= j < i ==> ideas[j].id != id
  }

  /** `ideas.find(idea => idea.id === id)`, rejecting when absent. */
  function GetIdeaById(ideas: seq<Idea>, id: string): (r: Result<Idea, Failure>)
    ensures r.Ok? ==> forall i | IsFirstMatch(ideas, id, i) :: r.value == ideas[i]
    ensures r.Err? <==> forall x | x in ideas :: x.id != id
    ensures r.Err? ==> r.error == IdeaNotFound
  {
    match Find(HasId(IdeaId, id), ideas)
    case None => Err(IdeaNotFound)
    case Some(x) => Ok(x)
  }

  /** `ideas.filter(idea => idea.clubId === clubId)`. */
  function GetIdeasByClubId(ideas: seq<Idea>, clubId: string): (r: seq<Idea>)
    ensures forall x | x in r :: x in ideas && x.clubId == clubId
    ensures forall x | x in ideas && x.clubId == clubId :: x in r
    ensures IsSubsequence(r, ideas)
    ensures forall x :: multiset(r)[x] == if x.clubId == clubId then multiset(ideas)[x] else 0
  {
    FilterKeepsOrderAndCounts(InClub(IdeaClubId, clubId), ideas);
    Filter(InClub(IdeaClubId, clubId), ideas)
  }

  /** The required-field rule: title, description and club must be non-empty. */
  predicate HasRequiredFields(d: IdeaDraft) {
    d.title != "" && d.description != "" && d.clubId != ""
  }

  /** `{ id: generated, ...ideaData, votes: 0, createdAt: today, status: 'proposed' }`,
      appended to the stored list. */
  function CreateIdea(ideas: seq<Idea>, d: IdeaDraft, generatedId: string, today: string): (r: Reply<Idea>)
    ensures r.result.Err? <==> !HasRequiredFields(d)
    ensures r.result.Err? ==> r.result.error == MissingRequiredFields && r.storage == ideas
    ensures r.result.Ok? ==>
      && r.storage == ideas + [r.result.value]
      && r.result.value.votes == 0 && r.result.value.status == "proposed"
      && r.result.value.createdAt == today
      && r.result.value.id == d.id.GetOr(generatedId)
      && r.result.value.title == d.title && r.result.value.clubId == d.clubId
      && r.result.value.creator == d.creator && r.result.value.tags == d.tags
      && r.result.value.description == d.description
  {
    if !HasRequiredFields(d) then Reply(ideas, Err(MissingRequiredFields))
    else
      var x := Idea(d.id.GetOr(generatedId), d.title, d.description, d.creator, d.clubId,
        "proposed", 0, today, d.tags);
      Reply(ideas + [x], Ok(x))
  }

  /** Merges the patch into the FIRST idea with that id only. */
  function UpdateIdea(ideas: seq<Idea>, id: string, p: IdeaPatch): (r: Reply<Idea>)
    ensures r.result.Err? <==> forall x | x in ideas :: x.id != id
    ensures r.result.Err? ==> r.result.error == IdeaNotFound && r.storage == ideas
    ensures r.result.Ok? ==> forall i | IsFirstMatch(ideas, id, i) ::
      r.result.value == MergeIdea(ideas[i], p) && r.storage == ideas[i := r.result.value]
  {
    match IndexOf(HasId(IdeaId, id), ideas)
    case None => Reply(ideas, Err(IdeaNotFound))
    case Some(i) =>
      var merged := MergeIdea(ideas[i], p);
      Reply(ideas[i := merged], Ok(merged))
  }

  /** Removes every idea with that id; rejects when nothing was removed. */
  function DeleteIdea(ideas: seq<Idea>, id: string): (r: Reply<bool>)
    ensures r.result.Err? <==> forall x | x in ideas :: x.id != id
    ensures r.result.Err? ==> r.result.error == IdeaNotFound && r.storage == ideas
    ensures r.result.Ok? ==> r.result.value
    ensures forall x | x in r.storage :: x in ideas
    ensures r.result.Ok? ==> forall x | x in ideas :: x in r.storage <==> x.id != id
    ensures r.result.Ok? ==> IsSubsequence(r.storage, ideas)
    ensures r.result.Ok? ==> forall x :: multiset(r.storage)[x] == if x.id != id then multiset(ideas)[x] else 0
  {
    var kept := Filter(IdIsNot(IdeaId, id), ideas);
    FilterKeepsLength(IdIsNot(IdeaId, id), ideas);
    FilterKeepsOrderAndCounts(IdIsNot(IdeaId, id), ideas);
    if |kept| == |ideas| then Reply(ideas, Err(IdeaNotFound))
    else Reply(kept, Ok(true))
  }

  /** Looks the idea up, then writes it back with one more vote. Nothing
      records who voted. */
  function VoteIdea(ideas: seq<Idea>, id: string): (r: Reply<Idea>)
    ensures r.result.Err? <==> forall x | x in ideas :: x.id != id
    ensures r.result.Err? ==> r.result.error == IdeaNotFound && r.storage == ideas
    ensures r.result.Ok? ==> forall i | IsFirstMatch(ideas, id, i) ::
      r.result.value == ideas[i].(votes := ideas[i].votes + 1) && r.storage == ideas[i := r.result.value]
  {
    match GetIdeaById(ideas, id)
    case Err(f) => Reply(ideas, Err(f))
    case Ok(x) => UpdateIdea(ideas, id, IdeaAsPatch(x.(votes := x.votes + 1)))
  }

  /** Checks the status first, then looks the idea up and writes the status
      back. Any valid status may follow any other. */
  function UpdateIdeaStatus(ideas: seq<Idea>, id: string, status: string): (r: Reply<Idea>)
    ensures status !in ValidStatuses ==> r.result == Err(InvalidStatus) && r.storage == ideas
    ensures status in ValidStatuses ==> (r.result.Err? <==> forall x | x in ideas :: x.id != id)
    ensures r.result.Err? ==> r.storage == ideas
    ensures r.result.Ok? ==> forall i | IsFirstMatch(ideas, id, i) ::
      r.result.value == ideas[i].(status := status) && r.storage == ideas[i := r.result.value]
  {
    if status !in ValidStatuses then Reply(ideas, Err(InvalidStatus))
    else match GetIdeaById(ideas, id)
      case Err(f) => Reply(ideas, Err(f))
      case Ok(x) => UpdateIdea(ideas, id, IdeaAsPatch(x.(status := status)))
  }

  // ---------------------------------------------------------------------
  // Properties

  /** The first match exists exactly when some idea has the id. */
  lemma FirstMatchExists(ideas: seq<Idea>, id: string)
    requires exists x | x in ideas :: x.id == id
    ensures exists i :: IsFirstMatch(ideas, id, i)
  {
    var i := IndexOf(HasId(IdeaId, id), ideas).value;
    assert IsFirstMatch(ideas, id, i);
  }

  /** One `voteIdea(id)` call as a step on the stored list. */
  function VoteStep(id: string): seq<Idea> -> seq<Idea> {
    (ideas: seq<Idea>) => VoteIdea(ideas, id).storage
  }

  /** `f` applied `n` times. */
  function Repeat<T>(f: T -> T, x: T, n: nat): T
    decreases n
  {
    if n == 0 then x else Repeat(f, f(x), n - 1)
  }

  /** The first match and the vote it receives, from any stored list. */
  ghost predicate AddsOneVote(f: seq<Idea> -> seq<Idea>, id: string) {
    forall ideas: seq<Idea>, k: int | IsFirstMatch(ideas, id, k) :: f(ideas) == ideas[k := ideas[k].(votes := ideas[k].votes + 1)]
  }

  lemma VoteStepAddsOneVote(id: string)
    ensures AddsOneVote(VoteStep(id), id)
  {
    forall ideas: seq<Idea>, k: int | IsFirstMatch(ideas, id, k)
      ensures VoteStep(id)(ideas) == ideas[k := ideas[k].(votes := ideas[k].votes + 1)]
    {
      assert ideas[k] in ideas;
    }
  }

  /** Any step that adds one vote to the first match adds `n` in `n` steps. */
  lemma {:induction false} RepeatAddsVotes(f: seq<Idea> -> seq<Idea>, ideas: seq<Idea>, id: string, i: int, n: nat)
    requires AddsOneVote(f, id)
    requires IsFirstMatch(ideas, id, i)
    ensures Repeat(f, ideas, n) == ideas[i := ideas[i].(votes := ideas[i].votes + n)]
    decreases n
  {
    if n == 0 {
      assert ideas[i := ideas[i]] == ideas;
    } else {
      var once := ideas[i := ideas[i].(votes := ideas[i].votes + 1)];
      assert f(ideas) == once;
      assert IsFirstMatch(once, id, i);
      RepeatAddsVotes(f, once, id, i, n - 1);
      var target := ideas[i].(votes := ideas[i].votes + n);
      assert once[i].(votes := once[i].votes + (n - 1)) == target;
      UpdateTwice(ideas, i, once[i], target);
    }
  }

  /** Voting is not deduplicated: `n` calls add exactly `n` votes to the
      first idea with the id and change nothing else. */
  lemma VotesAccumulate(ideas: seq<Idea>, id: string, i: int, n: nat)
    requires IsFirstMatch(ideas, id, i)
    ensures Repeat(VoteStep(id), ideas, n) == ideas[i := ideas[i].(votes := ideas[i].votes + n)]
  {
    VoteStepAddsOneVote(id);
    RepeatAddsVotes(VoteStep(id), ideas, id, i, n);
  }

  /** An invalid status is reported even for an id that does not exist. */
  lemma InvalidStatusWins(ideas: seq<Idea>, id: string, status: string)
    requires forall x | x in ideas :: x.id != id
    requires status !in ValidStatuses
    ensures UpdateIdeaStatus(ideas, id, status).result == Err(InvalidStatus)
    ensures GetIdeaById(ideas, id) == Err(IdeaNotFound)
  {
  }

  /** Status changes follow no transition order: any valid status can be
      set again after any other. */
  lemma StatusChangesAreUnordered(ideas: seq<Idea>, id: string, s1: string, s2: string)
    requires s1 in ValidStatuses && s2 in ValidStatuses
    requires exists x | x in ideas :: x.id == id
    ensures UpdateIdeaStatus(UpdateIdeaStatus(ideas, id, s1).storage, id, s2).result.Ok?
    ensures UpdateIdeaStatus(UpdateIdeaStatus(ideas, id, s1).storage, id, s2).result.value.status == s2
  {
    FirstMatchExists(ideas, id);
    var i :| IsFirstMatch(ideas, id, i);
    var once := UpdateIdeaStatus(ideas, id, s1).storage;
    assert IsFirstMatch(once, id, i);
  }

  /** A successful delete removes the id for good: repeating it rejects. */
  lemma DeleteTwiceRejects(ideas: seq<Idea>, id: string)
    requires DeleteIdea(ideas, id).result.Ok?
    ensures DeleteIdea(DeleteIdea(ideas, id).storage, id).result == Err(IdeaNotFound)
  {
  }

  /** Creating an idea under a fresh id and deleting that id restores the
      stored list. */
  lemma CreateThenDelete(ideas: seq<Idea>, d: IdeaDraft, generatedId: string, today: string)
    requires HasRequiredFields(d)
    requires forall x | x in ideas :: x.id != d.id.GetOr(generatedId)
    ensures DeleteIdea(CreateIdea(ideas, d, generatedId, today).storage, d.id.GetOr(generatedId)).result == Ok(true)
    ensures DeleteIdea(CreateIdea(ideas, d, generatedId, today).storage, d.id.GetOr(generatedId)).storage == ideas
  {
    var id := d.id.GetOr(generatedId);
    var x := CreateIdea(ideas, d, generatedId, today).result.value;
    FilterAppend(IdIsNot(IdeaId, id), ideas, [x]);
    FilterKeepsAll(IdIsNot(IdeaId, id), ideas);
    assert Filter(IdIsNot(IdeaId, id), [x]) == [];
  }

  /** The club filter keeps storage order. */
  lemma ClubFilterKeepsOrder(ideas: seq<Idea>, clubId: string)
    ensures IsSubsequence(GetIdeasByClubId(ideas, clubId), ideas)
  {
    FilterIsSubsequence(InClub(IdeaClubId, clubId), ideas);
  }
}
