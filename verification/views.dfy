/**
  The request handlers of the election application that carry rules: the
  vote handler, which runs a fixed sequence of early-exit checks before it
  calls the vote-casting service, and the list of elections the signed-in
  user has already voted in, shown on the election list page.

  HTTP responses are modelled as values: a rejection names the check that
  failed (a not-found page, a raised error or an error message followed by
  a redirect back to the election page).
 */
module Views {
  import opened Models
  import opened Store
  import Services

  /** Why the vote handler stops before casting. */
  datatype Rejection =
    | ElectionNotFound          // no election with the requested key (not found)
    | VoterNotFound             // the user is not registered in the election (not found)
    | MultipleVotersReturned    // more than one registration row for the pair (raised by the lookup)
    | AlreadyVoted              // "You have already voted" (not found)
    | NoCandidatesSelected      // "No candidates selected"
    | CandidateDoesNotExist     // "Candidate does not exist"

  /** The result of the checks that precede the cast. */
  datatype Admission = Admit(voter: nat, selected: set<CandidateId>) | Reject(reason: Rejection)

  /** What the vote handler did. */
  datatype Outcome = Cast(vote: nat) | Rejected(reason: Rejection)

  predicate Distinct(s: seq<CandidateId>) {
    forall i, j :: 0 <= i < j < |s| ==> s[i] != s[j]
  }

  function ToSet(s: seq<CandidateId>): set<CandidateId> {
    set c | c in s
  }

  /** `Candidate.objects.filter(pk__in=ids)`: the existing candidates whose key
      was submitted, whatever election they stand in. */
  function FilterCandidates(candidates: map<CandidateId, Candidate>, ids: seq<CandidateId>): (r: set<CandidateId>)
    ensures forall c :: c in r <==> c in ids && c in candidates
    ensures r == ToSet(ids) * candidates.Keys
  {
    set c | c in ids && c in candidates
  }

  /** A sequence has as many distinct elements as entries exactly when no
      entry repeats. */
  lemma {:induction false} ToSetCard(s: seq<CandidateId>)
    ensures |ToSet(s)| <= |s|
    ensures |ToSet(s)| == |s| <==> Distinct(s)
  {
    if s != [] {
      var tail := s[1..];
      ToSetCard(tail);
      assert ToSet(s) == {s[0]} + ToSet(tail);
      if s[0] in tail {
        assert ToSet(s) == ToSet(tail);
        var j :| 0 <= j < |tail| && tail[j] == s[0];
        assert s[0] == s[j + 1];
      } else {
        assert |ToSet(s)| == |ToSet(tail)| + 1;
        if Distinct(tail) {
          forall i, j | 0 <= i < j < |s| ensures s[i] != s[j] {
            if i > 0 {
              assert s[i] == tail[i - 1] && s[j] == tail[j - 1];
            } else {
              assert s[j] == tail[j - 1];
            }
          }
        }
        if Distinct(s) {
          forall i, j | 0 <= i < j < |tail| ensures tail[i] != tail[j] {
            assert tail[i] == s[i + 1] && tail[j] == s[j + 1];
          }
        }
      }
    }
  }

  /** The length comparison after the candidate query passes exactly when no
      key is repeated and every key names an existing candidate; the query
      then holds every submitted key. */
  lemma LengthCheck(candidates: map<CandidateId, Candidate>, ids: seq<CandidateId>)
    ensures |FilterCandidates(candidates, ids)| == |ids|
        <==> Distinct(ids) && forall i :: 0 <= i < |ids| ==> ids[i] in candidates
    ensures |FilterCandidates(candidates, ids)| == |ids| ==> FilterCandidates(candidates, ids) == ToSet(ids)
  {
    var f, s := FilterCandidates(candidates, ids), ToSet(ids);
    ToSetCard(ids);
    assert f * s == f;
    assert |s - f| == |s| - |f|;
    if |f| == |ids| {
      assert |s| == |ids|;
      assert s - f == {};
      forall i | 0 <= i < |ids| ensures ids[i] in candidates {
        assert ids[i] in s;
      }
      assert f == s;
    }
    if Distinct(ids) && forall i :: 0 <= i < |ids| ==> ids[i] in candidates {
      assert f == s;
    }
  }

  /** Row `k` of the voter table registers `user` in election `pk`. */
  ghost predicate IsVoterOf(t: Tables, k: int, user: UserId, pk: ElectionId) {
    0 <= k < |t.voters| && t.voters[k].user == user && t.voters[k].election == pk
  }

  /** Row `k` is the only registration of `user` in election `pk`. */
  ghost predicate SoleVoter(t: Tables, k: int, user: UserId, pk: ElectionId) {
    IsVoterOf(t, k, user, pk) && forall j :: IsVoterOf(t, j, user, pk) ==> j == k
  }

  /** `Voter.objects.filter(user=user, election=pk)`: the keys of the matching
      voter rows, in table order. */
  function MatchingVoters(voters: seq<Voter>, user: UserId, pk: ElectionId): (r: seq<nat>)
    ensures forall k: nat :: k in r <==> k < |voters| && voters[k].user == user && voters[k].election == pk
    ensures forall i :: 0 <= i < |r| ==> r[i] < |voters|
    ensures forall i, j :: 0 <= i < j < |r| ==> r[i] < r[j]
  {
    if voters == [] then []
    else
      var last := |voters| - 1;
      var r := MatchingVoters(voters[..last], user, pk);
      if voters[last].user == user && voters[last].election == pk then r + [last] else r
  }

  /** The lookup depends only on who is registered where, not on the flags. */
  lemma {:induction false} MatchingVotersIgnoreFlags(voters: seq<Voter>, voters': seq<Voter>, user: UserId, pk: ElectionId)
    requires |voters| == |voters'|
    requires forall k :: 0 <= k < |voters| ==> voters[k].user == voters'[k].user && voters[k].election == voters'[k].election
    ensures MatchingVoters(voters, user, pk) == MatchingVoters(voters', user, pk)
  {
    if voters != [] {
      var last := |voters| - 1;
      MatchingVotersIgnoreFlags(voters[..last], voters'[..last], user, pk);
    }
  }

  /** The lookup finds one row exactly when that row is the sole registration. */
  lemma MatchingVotersSole(t: Tables, user: UserId, pk: ElectionId)
    ensures var m := MatchingVoters(t.voters, user, pk);
            && (|m| == 0 <==> forall k :: !IsVoterOf(t, k, user, pk))
            && (|m| == 1 ==> SoleVoter(t, m[0], user, pk))
            && (forall k :: SoleVoter(t, k, user, pk) ==> m == [k])
  {
    var m := MatchingVoters(t.voters, user, pk);
    assert forall k :: IsVoterOf(t, k, user, pk) ==> k in m;
    if |m| != 0 {
      assert IsVoterOf(t, m[0], user, pk) by { assert m[0] in m; }
    }
    if |m| == 1 {
      forall j | IsVoterOf(t, j, user, pk) ensures j == m[0] {
        assert j in m;
      }
    }
    forall k | SoleVoter(t, k, user, pk) ensures m == [k] {
      assert k in m;
      if |m| > 1 {
        assert m[0] in m && m[1] in m;
        assert IsVoterOf(t, m[0], user, pk) && IsVoterOf(t, m[1], user, pk);
      }
    }
  }

  /** The checks of the vote handler, in the order it makes them, on the
      tables as they are when the request arrives. */
  function VoteAdmission(t: Tables, user: UserId, pk: ElectionId, ids: seq<CandidateId>): (a: Admission)
    ensures a.Admit? ==> pk in t.elections && IsVoterOf(t, a.voter, user, pk) && !t.voters[a.voter].hasVoted
    ensures a.Admit? ==> ids != [] && a.selected <= t.candidates.Keys && |a.selected| == |ids|
  {
    if pk !in t.elections then Reject(ElectionNotFound)
    else
      var m := MatchingVoters(t.voters, user, pk);
      if |m| == 0 then Reject(VoterNotFound)
      else if |m| > 1 then Reject(MultipleVotersReturned)
      else if t.voters[m[0]].hasVoted then Reject(AlreadyVoted)
      else if ids == [] then Reject(NoCandidatesSelected)
      else
        var selected := FilterCandidates(t.candidates, ids);
        if |ids| != |selected| then Reject(CandidateDoesNotExist)
        else Admit(m[0], selected)
  }

  /** A cast goes ahead exactly when the election exists, the user holds its
      only registration and has not voted, and the submitted keys are
      non-empty, pairwise different and all name existing candidates. The
      ballot then holds exactly the submitted candidates. */
  lemma AdmissionIff(t: Tables, user: UserId, pk: ElectionId, ids: seq<CandidateId>)
    ensures VoteAdmission(t, user, pk, ids).Admit? <==>
            && pk in t.elections
            && (exists k :: SoleVoter(t, k, user, pk) && !t.voters[k].hasVoted)
            && ids != []
            && Distinct(ids)
            && (forall i :: 0 <= i < |ids| ==> ids[i] in t.candidates)
    ensures VoteAdmission(t, user, pk, ids).Admit? ==> VoteAdmission(t, user, pk, ids).selected == ToSet(ids)
  {
    MatchingVotersSole(t, user, pk);
    LengthCheck(t.candidates, ids);
    var m := MatchingVoters(t.voters, user, pk);
    if pk in t.elections && |m| == 1 {
      assert SoleVoter(t, m[0], user, pk);
    }
  }

  /** The early exits about the registration, and the message each reports. */
  lemma VoterRejections(t: Tables, user: UserId, pk: ElectionId, ids: seq<CandidateId>, k: nat)
    ensures pk !in t.elections ==> VoteAdmission(t, user, pk, ids) == Reject(ElectionNotFound)
    ensures pk in t.elections && (forall j :: !IsVoterOf(t, j, user, pk))
            ==> VoteAdmission(t, user, pk, ids) == Reject(VoterNotFound)
    ensures pk in t.elections && IsVoterOf(t, k, user, pk) && (exists j :: IsVoterOf(t, j, user, pk) && j != k)
            ==> VoteAdmission(t, user, pk, ids) == Reject(MultipleVotersReturned)
    ensures pk in t.elections && SoleVoter(t, k, user, pk) && t.voters[k].hasVoted
            ==> VoteAdmission(t, user, pk, ids) == Reject(AlreadyVoted)
  {
    MatchingVotersSole(t, user, pk);
    var m := MatchingVoters(t.voters, user, pk);
    if pk in t.elections && IsVoterOf(t, k, user, pk) && (exists j :: IsVoterOf(t, j, user, pk) && j != k) {
      var j :| IsVoterOf(t, j, user, pk) && j != k;
      assert k in m && j in m;
    }
  }

  /** The early exits about the submitted keys, once the registration is
      found and unused, and the message each reports. */
  lemma SelectionRejections(t: Tables, user: UserId, pk: ElectionId, ids: seq<CandidateId>, k: nat)
    requires pk in t.elections && SoleVoter(t, k, user, pk) && !t.voters[k].hasVoted
    ensures ids == [] ==> VoteAdmission(t, user, pk, ids) == Reject(NoCandidatesSelected)
    ensures ids != [] && (!Distinct(ids) || exists i :: 0 <= i < |ids| && ids[i] !in t.candidates)
            ==> VoteAdmission(t, user, pk, ids) == Reject(CandidateDoesNotExist)
  {
    MatchingVotersSole(t, user, pk);
    LengthCheck(t.candidates, ids);
  }

  /** The candidate query is not restricted to the election voted in: a
      candidate standing in another election is accepted. */
  lemma ForeignCandidateAccepted(t: Tables, user: UserId, pk: ElectionId, k: nat, c: CandidateId)
    requires pk in t.elections && SoleVoter(t, k, user, pk) && !t.voters[k].hasVoted
    requires c in t.candidates && t.candidates[c].election != pk
    ensures VoteAdmission(t, user, pk, [c]) == Admit(k, {c})
  {
    MatchingVotersSole(t, user, pk);
    assert FilterCandidates(t.candidates, [c]) == {c};
  }

  /** The tables after the vote handler, as a function of the tables before. */
  function AfterVote(t: Tables, user: UserId, pk: ElectionId, ids: seq<CandidateId>, now: int): (t': Tables)
    ensures VoteAdmission(t, user, pk, ids).Reject? ==> t' == t
    ensures VoteAdmission(t, user, pk, ids).Admit? ==> |t'.votes| == |t.votes| + 1 && t'.votes[|t.votes|].election == pk
  {
    match VoteAdmission(t, user, pk, ids)
    case Reject(_) => t
    case Admit(k, selected) => Services.AfterCreateVote(t, pk, selected, k, now)
  }

  /** After a successful cast, the same user's next vote in the same election
      is rejected as already voted, whatever it selects: one cast per voter. */
  lemma SecondVoteRejected(t: Tables, user: UserId, pk: ElectionId, ids: seq<CandidateId>, ids': seq<CandidateId>, now: int)
    requires VoteAdmission(t, user, pk, ids).Admit?
    ensures VoteAdmission(AfterVote(t, user, pk, ids, now), user, pk, ids') == Reject(AlreadyVoted)
  {
    var t' := AfterVote(t, user, pk, ids, now);
    MatchingVotersIgnoreFlags(t.voters, t'.voters, user, pk);
  }

  /** How many voter rows are flagged as having voted. */
  function VotedCount(voters: seq<Voter>): (n: nat)
    ensures n <= |voters|
  {
    if voters == [] then 0 else (if voters[0].hasVoted then 1 else 0) + VotedCount(voters[1..])
  }

  /** Flagging one unflagged row raises the count by exactly one. */
  lemma {:induction false} VotedCountFlag(voters: seq<Voter>, k: nat)
    requires k < |voters| && !voters[k].hasVoted
    ensures VotedCount(voters[k := voters[k].(hasVoted := true)]) == VotedCount(voters) + 1
  {
    var voters' := voters[k := voters[k].(hasVoted := true)];
    if k > 0 {
      assert voters'[1..] == voters[1..][k - 1 := voters[k].(hasVoted := true)];
      VotedCountFlag(voters[1..], k - 1);
    } else {
      assert voters'[1..] == voters[1..];
    }
  }

  /** Every request keeps the number of ballots minus the number of flagged
      voters: a cast adds one ballot and flags one voter that was unflagged. */
  lemma VoteKeepsBalance(t: Tables, user: UserId, pk: ElectionId, ids: seq<CandidateId>, now: int)
    ensures var t' := AfterVote(t, user, pk, ids, now);
            |t'.votes| - VotedCount(t'.voters) == |t.votes| - VotedCount(t.voters)
  {
    var a := VoteAdmission(t, user, pk, ids);
    if a.Admit? {
      VotedCountFlag(t.voters, a.voter);
    }
  }

  /** The handler never consults the candidate limit and the service never
      applies `Clean`: a cast over the limit is stored although `Clean`
      rejects it. */
  lemma OverLimitCastStored(t: Tables, user: UserId, pk: ElectionId, ids: seq<CandidateId>, now: int)
    requires VoteAdmission(t, user, pk, ids).Admit?
    requires |ids| > t.elections[pk].maxCandidatesChoice
    ensures var t' := AfterVote(t, user, pk, ids, now);
            && t'.votes[|t.votes|] == Vote(pk, ToSet(ids), now)
            && Clean(t'.votes[|t.votes|], t.elections[pk]) == Some(TooManyCandidates(t.elections[pk].maxCandidatesChoice))
  {
    AdmissionIff(t, user, pk, ids);
  }

  /** `vote(request, pk)` for the signed-in `user` posting candidate keys `ids`
      at instant `now`. */
  method SubmitVote(db: Db, user: UserId, pk: ElectionId, ids: seq<CandidateId>, now: int) returns (o: Outcome)
    requires db.Valid()
    modifies db
    ensures db.Valid()
    ensures db.State() == AfterVote(old(db.State()), user, pk, ids, now)
    ensures match VoteAdmission(old(db.State()), user, pk, ids)
            case Reject(why) => o == Rejected(why)
            case Admit(k, _) => o == Cast(old(|db.votes|)) && db.voters[k].hasVoted
  {
    if pk !in db.elections {
      return Rejected(ElectionNotFound);
    }
    var matches := MatchingVoters(db.voters, user, pk);
    if |matches| == 0 {
      return Rejected(VoterNotFound);
    }
    if |matches| > 1 {
      return Rejected(MultipleVotersReturned);
    }
    var voter := matches[0];
    if db.voters[voter].hasVoted {
      return Rejected(AlreadyVoted);
    }
    if ids == [] {
      return Rejected(NoCandidatesSelected);
    }
    var selected := FilterCandidates(db.candidates, ids);
    if |ids| != |selected| {
      return Rejected(CandidateDoesNotExist);
    }
    var vote := Services.CreateVote(db, pk, selected, voter, now);
    o := Cast(vote);
  }

  /** Row `k` registers `user` in election `e` and is flagged as having voted. */
  predicate VotedIn(voters: seq<Voter>, user: UserId, e: ElectionId) {
    exists k :: 0 <= k < |voters| && voters[k].user == user && voters[k].election == e && voters[k].hasVoted
  }

  /** `a` can be obtained from `b` by deleting entries. */
  predicate Subsequence(a: seq<ElectionId>, b: seq<ElectionId>)
    decreases |b|
  {
    if a == [] then true
    else if b == [] then false
    else (a[0] == b[0] && Subsequence(a[1..], b[1..])) || Subsequence(a, b[1..])
  }

  /** The `has_voted` list of the election list page: the listed elections
      in which the user has a flagged registration, in list order. */
  function HasVotedIds(elections: seq<ElectionId>, voters: seq<Voter>, user: UserId): (r: seq<ElectionId>)
    ensures forall e :: e in r <==> e in elections && VotedIn(voters, user, e)
    ensures Subsequence(r, elections)
  {
    if elections == [] then []
    else
      var rest := HasVotedIds(elections[1..], voters, user);
      if VotedIn(voters, user, elections[0]) then [elections[0]] + rest else rest
  }

  /** The list is only put in the page context for a signed-in user. */
  function ElectionListContext(user: Option<UserId>, elections: seq<ElectionId>, voters: seq<Voter>): (r: Option<seq<ElectionId>>)
    ensures r.Some? <==> user.Some?
    ensures r.Some? ==> forall e :: e in r.value <==> e in elections && VotedIn(voters, user.value, e)
  {
    match user
    case None => None
    case Some(u) => Some(HasVotedIds(elections, voters, u))
  }
}
