/**
  The entities of the election application (elections, candidates, voters and
  votes) and the rules the model classes attach to them: the validity rule of
  a vote and the counting queries used on the result page.

  Instants (start and end dates, vote timestamps) are abstract integers; a
  larger integer is a later instant.
 */
module Models {

  type ElectionId = nat
  type CandidateId = nat
  type UserId = nat

  datatype Option<+T> = None | Some(value: T)

  /** An election. `maxCandidatesChoice` is a non-negative integer field. */
  datatype Election = Election(title: string, startDate: int, endDate: int, maxCandidatesChoice: nat)

  /** A candidate standing in exactly one election. */
  datatype Candidate = Candidate(election: ElectionId, name: string)

  /** The registration of one user in one election, with its one-time flag. */
  datatype Voter = Voter(user: UserId, election: ElectionId, hasVoted: bool)

  /** A ballot: the election it belongs to, the chosen candidates (a
      many-to-many relation, hence a set) and its creation instant. */
  datatype Vote = Vote(election: ElectionId, chosen: set<CandidateId>, timestamp: int)

  /** The failures `Vote.clean` raises, each carrying what its message shows. */
  datatype ValidationError = TooManyCandidates(limit: nat) | ElectionEnded(title: string)

  const DefaultMaxCandidatesChoice: nat := 1

  /** A freshly created election: the candidate limit takes its default.
      Nothing relates the end date to the start date. */
  function NewElection(title: string, startDate: int, endDate: int): (e: Election)
    ensures e.maxCandidatesChoice == 1
    ensures e.title == title && e.startDate == startDate && e.endDate == endDate
  {
    Election(title, startDate, endDate, DefaultMaxCandidatesChoice)
  }

  /** A freshly created voter has not voted yet. */
  function NewVoter(user: UserId, election: ElectionId): (v: Voter)
    ensures !v.hasVoted
    ensures v.user == user && v.election == election
  {
    Voter(user, election, false)
  }

  /** The number of candidates related to the vote. */
  function ChosenCandidateCount(v: Vote): (n: nat)
    ensures n == |v.chosen|
  {
    |v.chosen|
  }

  /** `Vote.clean`, where `e` is the election the vote refers to. The count
      check comes first, so it decides when both checks fail. */
  function Clean(v: Vote, e: Election): (r: Option<ValidationError>)
    ensures r == None <==> |v.chosen| <= e.maxCandidatesChoice && v.timestamp < e.endDate
  {
    if e.maxCandidatesChoice < ChosenCandidateCount(v) then
      Some(TooManyCandidates(e.maxCandidatesChoice))
    else if v.timestamp >= e.endDate then
      Some(ElectionEnded(e.title))
    else
      None
  }

  lemma CleanRejectsTooMany(v: Vote, e: Election)
    requires |v.chosen| > e.maxCandidatesChoice
    ensures Clean(v, e) == Some(TooManyCandidates(e.maxCandidatesChoice))
  {
  }

  lemma CleanRejectsEnded(v: Vote, e: Election)
    requires |v.chosen| <= e.maxCandidatesChoice && v.timestamp >= e.endDate
    ensures Clean(v, e) == Some(ElectionEnded(e.title))
  {
  }

  /** A vote that is both over the limit and late is reported as over the limit. */
  lemma CleanCountErrorFirst(v: Vote, e: Election)
    requires |v.chosen| > e.maxCandidatesChoice && v.timestamp >= e.endDate
    ensures Clean(v, e).Some? && Clean(v, e).value.TooManyCandidates?
  {
  }

  /** An empty selection never fails the count check: it is accepted before
      the end date and reported late after it. */
  lemma CleanEmptySelection(v: Vote, e: Election)
    requires v.chosen == {}
    ensures Clean(v, e) == if v.timestamp < e.endDate then None else Some(ElectionEnded(e.title))
  {
  }

  /** How many of `votes` belong to election `e`. */
  function ElectionVoteCount(votes: seq<Vote>, e: ElectionId): (n: nat)
    ensures n <= |votes|
  {
    if votes == [] then 0
    else (if votes[0].election == e then 1 else 0) + ElectionVoteCount(votes[1..], e)
  }

  /** `Election.candidate_vote_count`: how many votes of election `e` chose `c`. */
  function CandidateVoteCount(votes: seq<Vote>, e: ElectionId, c: CandidateId): (n: nat)
    ensures n <= ElectionVoteCount(votes, e)
    ensures (forall i :: 0 <= i < |votes| && votes[i].election == e ==> c !in votes[i].chosen) ==> n == 0
  {
    if votes == [] then 0
    else
      (if votes[0].election == e && c in votes[0].chosen then 1 else 0)
      + CandidateVoteCount(votes[1..], e, c)
  }

  /** Appending one vote raises the tally of exactly the candidates it chose
      in its own election, by one, and leaves every other tally alone. */
  lemma {:induction false} CandidateVoteCountAppend(votes: seq<Vote>, v: Vote, e: ElectionId, c: CandidateId)
    ensures CandidateVoteCount(votes + [v], e, c)
         == CandidateVoteCount(votes, e, c) + (if v.election == e && c in v.chosen then 1 else 0)
    ensures ElectionVoteCount(votes + [v], e)
         == ElectionVoteCount(votes, e) + (if v.election == e then 1 else 0)
  {
    if votes == [] {
      assert [v][1..] == [];
    } else {
      assert (votes + [v])[1..] == votes[1..] + [v];
      CandidateVoteCountAppend(votes[1..], v, e, c);
    }
  }
}
