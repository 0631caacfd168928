# Talk voting, modelled in Dafny

This project models the talk-voting feature of the conference site
(`conference/talk_voting.py`): the five vote values, the ticket-based
eligibility rule, the view that casts, changes or withdraws one user's vote
on one talk, and the view that lists the talks a user may vote on.

The vote table is a `map<(UserId, TalkUuid), int>`, so it holds at most one
vote per (user, talk) pair by construction. The talk table and the ticket
table are sequences of rows. The talk lookup `get_object_or_404` becomes
`Entities.FindTalk`, which returns an `Option`; `None` is the not-found error.
Each view is a pure function or method from the tables and the request to
an abstract response:

- `VoteSubmission.VoteOnTalk` returns the response together with the new store.
  The response is `NotFound`, `VoteRejected` (the failing `assert`) or
  `Form(talk, dbVote)`, the voting-control fragment.
- `Listing.TalkVoting` returns `Closed`, `Unavailable(conference)` or
  `Listed(talks)`.

Modules, one per concept of the source file:

- `Wrappers`: `Option`.
- `VotingOptions`: the allowed values `-1, 0, 3, 7, 10`, as integers and as
  the closed enumeration `Choice`.
- `Entities`: conferences, talks, tickets, the vote store, and the talk lookup.
- `Eligibility`: `is_user_allowed_to_vote`.
- `VoteSubmission`: `vote_on_a_talk`.
- `VoteHistory`: requests handled one after another against the same store.
- `Listing`: `talk_voting`.

The submission view does not check the voting window or the user's tickets.
Only the listing view does. The model keeps that: `VoteOnTalk` takes neither
the conference nor the ticket table.

## Model

| member | source | states |
|---|---|---|
| VotingOptions.Parse | conference/talk_voting.py:112-119 | an integer reads back as a choice exactly when it is one of the five allowed values, and the choice's value is that integer |
| VotingOptions.ParseValue | conference/talk_voting.py:112-119 | every choice's integer reads back as that same choice |
| VotingOptions.ValueIsBijection | conference/talk_voting.py:112-119 | the five choices have distinct values, and the allowed integers are exactly the values of choices |
| VotingOptions.OnlyWithdrawalIsNegative | conference/talk_voting.py:112-119 | among allowed values, only `no_vote` is negative |
| Entities.Lookup | conference/talk_voting.py:61-64 | the existing vote for a (user, talk) key is present exactly when the store has the key, and it is the stored value |
| Entities.Records | conference/talk_voting.py:62 | the row view of the store has a row for every stored key, and every row matches a stored key and its value |
| Entities.AtMostOneRecordPerPair | conference/talk_voting.py:62 | two vote rows for the same user and talk are the same row |
| Entities.FindTalk | conference/talk_voting.py:59 | a found talk is in the table and has the requested uuid; not-found happens only when no talk has that uuid |
| Eligibility.IsUserAllowedToVote | conference/talk_voting.py:48-54 | the user may vote if and only if some ticket in the table is owned by them |
| Eligibility.AnyConferenceTicketCounts | conference/talk_voting.py:48-54 | which conference a ticket was issued for does not affect eligibility |
| Eligibility.TicketGrantsEligibility | conference/talk_voting.py:48-54 | gaining a ticket never removes eligibility, and a ticket of one's own grants it |
| VoteSubmission.VoteOnTalk | conference/talk_voting.py:57-109 | not-found exactly for an unknown uuid, and it comes before the value check; rejection exactly for a POST value outside the allowed set; errors and reads leave the store unchanged; the fragment shows the requested talk and the resulting vote; after an accepted POST the pair holds the submitted value, or nothing after `no_vote`; no other key changes; the store invariant (no `-1`, only allowed values) is kept |
| VoteSubmission.RejectedVoteChangesNothing | conference/talk_voting.py:66-68 | a POST value outside the allowed set fails and leaves the store as it was |
| VoteSubmission.WithdrawWithoutRecordIsNoOp | conference/talk_voting.py:73-84 | `no_vote` with no existing record leaves the store unchanged and shows no vote |
| VoteSubmission.FirstVoteCreatesOneRecord | conference/talk_voting.py:86-103 | a real vote with no existing record adds exactly one record, holding that value |
| VoteSubmission.WithdrawDeletesRecord | conference/talk_voting.py:90-100 | `no_vote` on an existing record removes exactly that record and shows no vote |
| VoteSubmission.RevoteOverwrites | conference/talk_voting.py:70-103 | a real vote on an existing record replaces its value and adds no record |
| VoteSubmission.SubmitIdempotent | conference/talk_voting.py:66-109 | submitting the same value twice gives the same store and fragment as submitting it once |
| VoteSubmission.GetReportsExistingVote | conference/talk_voting.py:61-109 | a non-POST request shows the existing vote, if any, and changes nothing |
| VoteSubmission.ReadAfterWrite | conference/talk_voting.py:66-109 | after an accepted POST, a read shows the submitted vote, or no vote after `no_vote` |
| VoteHistory.Replay | conference/talk_voting.py:57-109 | any sequence of requests keeps the store invariant, and a sequence of reads leaves the store unchanged |
| VoteHistory.LastWriteWins | conference/talk_voting.py:57-109 | after any sequence of requests, a pair's vote is what the last accepted POST for that pair submitted, or the original vote when there was none |
| VoteHistory.OthersCannotTouchMyVotes | conference/talk_voting.py:57-109 | requests by other users never change a user's votes |
| Listing.AnnotationIsRequesterVote | conference/talk_voting.py:32-37 | a talk's annotation is the requester's single vote row on it when there is one, and empty otherwise; it never holds another user's vote |
| Listing.SelectTalksMembers | conference/talk_voting.py:27-38 | the listing holds exactly the annotated talks of the table that belong to the conference and were not created by the requester |
| Listing.SelectTalksCount | conference/talk_voting.py:27-38 | each visible talk's annotation occurs in the listing as often as the talk occurs in the table, and nothing else occurs |
| Listing.OrderDoesNotMatter | conference/talk_voting.py:31 | reordering the talk table gives the same listing up to order |
| Listing.TalkVoting | conference/talk_voting.py:10-45 | closed whenever voting is closed, whatever the user's tickets; otherwise unavailable for a user without tickets; otherwise the full filtered listing, in which every talk belongs to the conference and is not the requester's, every such talk appears, and each carries only the requester's own stored vote on it |

## Left out

- `conference/forms.py`: field declarations for the submission, speaker and talk-edit forms. They have no behaviour beyond what the web framework enforces.
- Template rendering, the `login_required` redirect and the URL routes (conference/talk_voting.py:122-125). Responses are abstract datatypes. The `VotingOptions` template context is not modelled.
- The random order of the listing (`order_by("?")`). The listing keeps the talk table's row order. `Listing.OrderDoesNotMatter` shows that the listing's contents do not depend on that order.
- The conference's `voting()` date check and `Conference.objects.current()`. Both are inputs: the `Conference` value and its `votingOpen` flag.
- Parsing the POST field with `int(...)` and the `ValueError` on malformed input. The request carries an already-parsed integer.
- The prefetch mechanics and the second, redundant read of the vote at line 71. Both read the same store value as line 62.
- Saving and deleting rows as database I/O. These become map updates.
- Concurrent requests on the same (user, talk) pair and the database's uniqueness constraint. Requests are handled one at a time, and the map's shape gives uniqueness.
- Entities.FindTalk: takes the first talk with the uuid. The `MultipleObjectsReturned` error is not modelled, because the uuid column is unique.
