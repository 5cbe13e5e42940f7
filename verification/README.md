# Vote casting in the election application

A Dafny model of the vote-casting path of a web application for running
elections. The application's data lives in four tables:
- elections, each with an end date and a maximum number of candidates a voter may choose;
- candidates, each standing in one election;
- voters, each registering one user in one election, with a `has_voted` flag;
- votes, each belonging to one election and holding a set of chosen candidates and a timestamp.

The model covers four things:
- the rules the model classes attach to these entities: the validity rule
  `Vote.clean`, the chosen-candidate count and the per-candidate tally;
- the service `create_vote`, which stores a ballot and flags the voter;
- the `vote` request handler, which runs a fixed sequence of early-exit checks
  before it calls `create_vote`;
- the `has_voted` list shown on the election list page.

Layout:
- `models.dfy`, module `Models`: the entities as datatypes, and the rules as functions and lemmas.
- `store.dfy`, module `Store`: the store as a class `Db` with one field per table.
  - `Consistent` states that every foreign key resolves.
  - `InsertVote`, `SetChosen` and `SaveVoter` are the writes the service makes.
- `services.dfy`, module `Services`: `CreateVote`, specified by the function `AfterCreateVote`.
- `views.dfy`, module `Views`: the vote handler `SubmitVote` and the list `HasVotedIds`.
  - `VoteAdmission` specifies the handler's checks.
  - `AfterVote` specifies the state the handler leaves behind.

Instants are integers. The instant a ballot is created is passed in as `now`.
Rows of the voter and vote tables are identified by their position.

Two behaviours of the code are kept as written:
- `create_vote` never applies `Vote.clean`. A ballot over the candidate limit,
  or cast after the end date, is stored (`CreateVoteSkipsClean`, `OverLimitCastStored`).
- The handler looks candidates up without restricting them to the election
  being voted in (`ForeignCandidateAccepted`).

`create_vote` neither validates the ballot nor removes it once stored.

## Model

| member | source | states |
|---|---|---|
| `Models.NewElection` | election/models.py:8-13 | a new election's candidate limit defaults to 1; nothing ties its end date to its start date |
| `Models.NewVoter` | election/models.py:44-47 | a new registration starts with `has_voted` false |
| `Models.ChosenCandidateCount` | election/models.py:62-63 | the count is the number of candidates in the ballot's chosen set |
| `Models.Clean` | election/models.py:65-69 | a ballot is accepted exactly when its count is at most the limit and its timestamp is before the end date |
| `Models.CleanRejectsTooMany` | election/models.py:66-67 | a count strictly above the limit is rejected with the too-many-candidates error carrying the limit |
| `Models.CleanRejectsEnded` | election/models.py:68-69 | within the limit, a timestamp at or after the end date is rejected with the has-ended error carrying the title |
| `Models.CleanCountErrorFirst` | election/models.py:66-69 | when both checks fail, the too-many-candidates error is the one reported |
| `Models.CleanEmptySelection` | election/models.py:65-69 | an empty selection never fails the count check; only the date can reject it |
| `Models.ElectionVoteCount` | election/models.py:19-20 | counts the stored ballots that belong to the election (its `vote_set`); `CandidateVoteCountAppend` fixes its value ballot by ballot |
| `Models.CandidateVoteCount` | election/models.py:19-20 | a candidate's tally never exceeds its election's ballot count, and is zero when no ballot of the election chose it |
| `Models.CandidateVoteCountAppend` | election/models.py:19-20 | storing one ballot raises by one the tally of each candidate it chose in its own election and of that election's ballot count, and changes no other tally |
| `Store.ResolveTargets` | election/services.py:6 | the many-to-many `set` succeeds exactly when every item is a candidate row, and then relates the ballot to exactly those candidates |
| `Store.RowsResolve` | election/services.py:6 | handing over the rows of a query set relates the ballot to exactly the selected candidates |
| `Store.WrappedQuerySetRejected` | election/services.py:6 | a one-element list holding a query set never resolves, whatever the query set holds |
| `Store.Db.InsertVote` | election/services.py:5 | creating a ballot appends exactly one row, returns its key, keeps the foreign keys valid and changes no other table |
| `Store.Db.SetChosen` | election/services.py:6 | the ballot's chosen set becomes the resolved candidates, or nothing changes when the call raises |
| `Store.Db.SaveVoter` | election/services.py:9-10 | saving a voter overwrites that one row and no other |
| `Services.AfterCreateVote` | election/services.py:4-11 | one new ballot linked to the election, holding the selection and the timestamp, is appended; the given voter is flagged; other ballots, voters, elections and candidates are unchanged; foreign keys stay valid |
| `Services.CreateVote` | election/services.py:4-11 | the store becomes `AfterCreateVote` of the old store, and the returned key is that of the new ballot |
| `Services.CreateVoteAsWritten` | election/services.py:4-11 | with the query set wrapped in a list, an empty ballot row is left behind, no voter is flagged, and the call fails |
| `Services.CreateVoteSkipsClean` | election/services.py:4-11 | a ballot that `Clean` rejects is still stored and the voter still flagged |
| `Views.FilterCandidates` | election/views.py:70 | the candidate query returns exactly the submitted keys that name an existing candidate, whatever election that candidate stands in |
| `Views.ToSetCard` | election/views.py:72 | the submitted keys have as many distinct values as entries exactly when none repeats |
| `Views.LengthCheck` | election/views.py:70-74 | the length check passes exactly when the keys are pairwise different and all name existing candidates; the query then holds all of them |
| `Views.MatchingVoters` | election/views.py:59 | the voter query returns exactly the rows registering the user in the election, in table order |
| `Views.MatchingVotersIgnoreFlags` | election/views.py:59 | the voter query does not depend on the `has_voted` flags |
| `Views.MatchingVotersSole` | election/views.py:59 | the lookup finds nothing exactly when no row matches, and finds one row exactly when that row is the only registration |
| `Views.VoteAdmission` | election/views.py:57-76 | an admitted request names an existing election and an unflagged registration of the user in it, and a non-empty selection of existing candidates as large as the submitted list |
| `Views.AdmissionIff` | election/views.py:57-76 | a request is admitted if and only if the election exists, the user has exactly one registration, that registration is unflagged, and the keys are non-empty, distinct and existing; the ballot then holds exactly the submitted keys |
| `Views.VoterRejections` | election/views.py:58-62 | a missing election or registration is not found, two registrations make the lookup raise, and a flagged registration is rejected as already voted |
| `Views.SelectionRejections` | election/views.py:64-74 | an empty selection is rejected with "No candidates selected"; repeated or unknown keys are rejected with "Candidate does not exist" |
| `Views.ForeignCandidateAccepted` | election/views.py:70 | a candidate standing in another election is admitted |
| `Views.AfterVote` | election/views.py:57-79 | a rejected request leaves the store unchanged; an admitted one adds exactly one ballot, linked to the election |
| `Views.SecondVoteRejected` | election/views.py:61-76 | after a successful cast, any further request by the same user in the same election is rejected as already voted |
| `Views.VotedCount` | election/views.py:61-62 | counts the registrations whose `has_voted` flag is set; `VotedCountFlag` and `VoteKeepsBalance` are stated over it |
| `Views.VotedCountFlag` | election/services.py:7 | flagging an unflagged registration raises the flagged count by exactly one |
| `Views.VoteKeepsBalance` | election/views.py:61-76 | every request keeps the number of ballots minus the number of flagged registrations |
| `Views.OverLimitCastStored` | election/views.py:76 | an admitted selection above the limit is stored, although `Clean` rejects the stored ballot |
| `Views.SubmitVote` | election/views.py:57-79 | the handler returns the rejection of the first failing check and leaves the store unchanged, or casts once and returns the new ballot's key with the voter flagged |
| `Views.HasVotedIds` | election/views.py:23-25 | the list holds exactly the listed elections where the user has a flagged registration, in list order |
| `Views.ElectionListContext` | election/views.py:18-26 | the list is present exactly for a signed-in user, and then holds exactly the elections that user has voted in |

## Findings

| source | as written | input that shows it | evidently intended | confidence | as-written member | corrected member |
|---|---|---|---|---|---|---|
| election/services.py:6 | `vote.chosen_candidates.set([selected_candidates])` passes a one-element list whose only item is the query set | any admitted request, e.g. one candidate key `[1]` | `set(selected_candidates)`, relating the ballot to the selected candidates | not executed; medium: relies on the many-to-many `set` rejecting an item that is neither a candidate nor a key | `Services.CreateVoteAsWritten` (shown by `Store.WrappedQuerySetRejected`) | `Services.CreateVote` (proved with `Store.RowsResolve`) |

As written, `Vote.objects.create` has already stored the ballot row when the
`set` call raises. The row keeps no candidate, and the voter is never flagged.
The rest of the model uses the corrected `CreateVote`.

## Left out

- The response after a successful cast is not modelled. election/views.py:79 redirects to `election.get_result_url()`, which election/models.py does not define. The ballot and the flag are already stored when that line runs.
- `voter.full_clean()` (election/services.py:9) is taken to pass. `Voter` has no custom validation, and the model keeps its foreign keys valid.
- Submitted candidate keys are modelled as numbers. A key that does not parse as a number makes the query raise; that case is not modelled.
- Transactions: a request-wide transaction, if the settings enable one, would roll back the orphan ballot of the finding above. The settings are not part of this model.
- `Election.is_active`, descriptions, parties and `__str__`: never read on the vote path.
- `Election.get_absolute_url`: redirects are modelled as rejection values.
- The election list is the whole `Election` query set, in the order the database returns it; the model takes that order as given.
- `ElectionDetail`, `ElectionResult`, `contact_view`, `about_us_view` and `profile_view` only assemble template context or render pages.
- The account app (sign-up, login, forms, the reCAPTCHA check) is left out: authentication, session handling and a network call. The signed-in user is a parameter.
- election/utils.py (chart and temporary-file output), election/forms.py, election/admin.py and election/mixins.py are left out: rendering and declarative configuration.
- Voter sign-up is left out. election/urls.py:15 routes to `signup_for_election`, which is not defined in election/views.py, so no sign-up rule is modelled.
- The clock: `auto_now_add` is replaced by the `now` parameter.
- Concurrency: two simultaneous requests by one voter could both pass the `has_voted` check. The model runs one request at a time.
- Row deletion and cascades are left out: nothing on the vote path deletes.
