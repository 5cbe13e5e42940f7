/**
  The vote-casting service: record a ballot and mark the voter as having
  voted. The service does not apply the validity rule `Models.Clean`, so a
  ballot over the candidate limit or past the end date is recorded as well.
 */
module Services {
  import opened Models
  import opened Store

  /** The tables after `create_vote(election, selected, voter)` at instant
      `now`: one new ballot at the end of the vote table, the given voter
      flagged, and nothing else touched. */
  function AfterCreateVote(t: Tables, election: ElectionId, selected: set<CandidateId>, voter: nat, now: int): (t': Tables)
    requires voter < |t.voters|
    ensures |t'.votes| == |t.votes| + 1 && t'.votes[..|t.votes|] == t.votes
    ensures t'.votes[|t.votes|] == Vote(election, selected, now)
    ensures |t'.voters| == |t.voters| && t'.voters[voter].hasVoted
    ensures t'.voters[voter].user == t.voters[voter].user && t'.voters[voter].election == t.voters[voter].election
    ensures forall k :: 0 <= k < |t.voters| && k != voter ==> t'.voters[k] == t.voters[k]
    ensures t'.elections == t.elections && t'.candidates == t.candidates
    ensures Consistent(t) && election in t.elections && selected <= t.candidates.Keys ==> Consistent(t')
  {
    t.(votes := t.votes + [Vote(election, selected, now)],
       voters := t.voters[voter := t.voters[voter].(hasVoted := true)])
  }

  /** `create_vote`, with the chosen candidates set to the selected ones
      (see `CreateVoteAsWritten` for the call as the source spells it). */
  method CreateVote(db: Db, election: ElectionId, selected: set<CandidateId>, voter: nat, now: int) returns (vote: nat)
    requires db.Valid()
    requires election in db.elections && selected <= db.candidates.Keys && voter < |db.voters|
    modifies db
    ensures db.Valid()
    ensures db.State() == AfterCreateVote(old(db.State()), election, selected, voter, now)
    ensures vote == old(|db.votes|) && db.votes[vote] == Vote(election, selected, now)
  {
    vote := db.InsertVote(Vote(election, {}, now));
    RowsResolve(selected);
    var ok := db.SetChosen(vote, Rows(selected));
    // handing over the rows themselves cannot raise
    assert ok;
    var v := db.voters[voter].(hasVoted := true);
    db.SaveVoter(voter, v);
  }

  /** `create_vote` as the source spells it: the query set is wrapped in a
      one-element list, so the many-to-many `set` raises. By then the ballot
      row exists with no candidate; the voter is never flagged and nothing is
      returned. */
  method CreateVoteAsWritten(db: Db, election: ElectionId, selected: set<CandidateId>, voter: nat, now: int)
    returns (vote: Option<nat>)
    requires db.Valid()
    requires election in db.elections && selected <= db.candidates.Keys && voter < |db.voters|
    modifies db
    ensures db.Valid()
    ensures vote == None
    ensures db.votes == old(db.votes) + [Vote(election, {}, now)]
    ensures db.voters == old(db.voters)
    ensures db.elections == old(db.elections) && db.candidates == old(db.candidates)
  {
    var id := db.InsertVote(Vote(election, {}, now));
    WrappedQuerySetRejected(selected);
    var ok := db.SetChosen(id, {QuerySet(selected)});
    // the call raises, so the flag assignment and the save never run
    assert !ok;
    vote := None;
  }

  /** Nothing in `create_vote` consults the validity rule: the ballot it
      records is the one asked for, even when `Clean` rejects it. */
  lemma CreateVoteSkipsClean(t: Tables, election: ElectionId, selected: set<CandidateId>, voter: nat, now: int)
    requires voter < |t.voters| && election in t.elections
    requires |selected| > t.elections[election].maxCandidatesChoice || now >= t.elections[election].endDate
    ensures var t' := AfterCreateVote(t, election, selected, voter, now);
            t'.votes[|t.votes|] == Vote(election, selected, now) && t'.voters[voter].hasVoted
            && Clean(t'.votes[|t.votes|], t'.elections[election]).Some?
  {
  }
}
