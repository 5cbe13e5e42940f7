/**
  The relational store behind the model classes, reduced to the four tables
  the vote-casting path touches. Elections and candidates are keyed by their
  primary key; voters and votes are kept in insertion order and a row's
  position is its primary key.
 */
module Store {
  import opened Models

  /** A snapshot of the four tables. */
  datatype Tables = Tables(
    elections: map<ElectionId, Election>,
    candidates: map<CandidateId, Candidate>,
    voters: seq<Voter>,
    votes: seq<Vote>)

  /** Every foreign key resolves: candidates, voters and votes name an
      existing election, and every chosen candidate exists. */
  ghost predicate Consistent(t: Tables) {
    && (forall c :: c in t.candidates ==> t.candidates[c].election in t.elections)
    && (forall k :: 0 <= k < |t.voters| ==> t.voters[k].election in t.elections)
    && (forall k :: 0 <= k < |t.votes| ==> t.votes[k].election in t.elections)
    && (forall k :: 0 <= k < |t.votes| ==> t.votes[k].chosen <= t.candidates.Keys)
  }

  /** One item handed to the many-to-many `set` call: either a candidate row
      or something else, such as a whole query set of candidates. */
  datatype Target = Row(id: CandidateId) | QuerySet(rows: set<CandidateId>)

  /** The candidate rows of a query set, one item per row. */
  function Rows(ids: set<CandidateId>): (items: set<Target>)
    ensures forall t :: t in items ==> t.Row? && t.id in ids
  {
    set c | c in ids :: Row(c)
  }

  /** What a many-to-many `set` call relates the vote to: the candidates of
      its items, or nothing at all (the call raises) when an item is neither
      a candidate row nor a key. */
  function ResolveTargets(items: set<Target>): (r: Option<set<CandidateId>>)
    ensures r.Some? <==> forall t :: t in items ==> t.Row?
    ensures r.Some? ==> forall c :: c in r.value <==> Row(c) in items
  {
    if forall t :: t in items ==> t.Row? then Some(set t | t in items :: t.id) else None
  }

  /** Iterating a query set gives its rows, which resolve to exactly its keys. */
  lemma RowsResolve(ids: set<CandidateId>)
    ensures ResolveTargets(Rows(ids)) == Some(ids)
  {
    var r := ResolveTargets(Rows(ids));
    forall c | c in ids ensures c in r.value {
      assert Row(c) in Rows(ids);
    }
    assert r.value == ids;
  }

  /** Wrapping a query set in a one-element list hands over an item that is
      not a candidate row, so the call raises whatever the query set holds. */
  lemma WrappedQuerySetRejected(ids: set<CandidateId>)
    ensures ResolveTargets({QuerySet(ids)}) == None
  {
    assert QuerySet(ids) in {QuerySet(ids)};
  }

  class Db {
    var elections: map<ElectionId, Election>
    var candidates: map<CandidateId, Candidate>
    var voters: seq<Voter>
    var votes: seq<Vote>

    function State(): Tables
      reads this
    {
      Tables(elections, candidates, voters, votes)
    }

    /** Foreign-key integrity of the tables, kept by every write. */
    ghost predicate Valid()
      reads this
    {
      Consistent(State())
    }

    constructor ()
      ensures Valid()
      ensures State() == Tables(map[], map[], [], [])
    {
      elections := map[];
      candidates := map[];
      voters := [];
      votes := [];
    }

    /** `Vote.objects.create`: a new row at the end of the vote table. */
    method InsertVote(v: Vote) returns (id: nat)
      requires Valid()
      requires v.election in elections && v.chosen <= candidates.Keys
      modifies this
      ensures Valid()
      ensures id == old(|votes|) && votes == old(votes) + [v]
      ensures elections == old(elections) && candidates == old(candidates) && voters == old(voters)
    {
      id := |votes|;
      votes := votes + [v];
    }

    /** The many-to-many `set` on vote `id`: on success the vote is related to
      exactly the resolved candidates; otherwise it raises and nothing changes. */
    method SetChosen(id: nat, items: set<Target>) returns (ok: bool)
      requires Valid()
      requires id < |votes|
      requires forall t :: t in items && t.Row? ==> t.id in candidates
      modifies this
      ensures Valid()
      ensures ok <==> ResolveTargets(items).Some?
      ensures ok ==> votes == old(votes)[id := old(votes)[id].(chosen := ResolveTargets(items).value)]
      ensures !ok ==> votes == old(votes)
      ensures elections == old(elections) && candidates == old(candidates) && voters == old(voters)
    {
      var r := ResolveTargets(items);
      ok := r.Some?;
      if ok {
        votes := votes[id := votes[id].(chosen := r.value)];
      }
    }

    /** `voter.save()` after `voter.full_clean()`: the row `k` is overwritten. */
    method SaveVoter(k: nat, v: Voter)
      requires Valid()
      requires k < |voters| && v.election in elections
      modifies this
      ensures Valid()
      ensures voters == old(voters)[k := v]
      ensures elections == old(elections) && candidates == old(candidates) && votes == old(votes)
    {
      voters := voters[k := v];
    }
  }
}
