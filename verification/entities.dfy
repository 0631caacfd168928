/**
 The records the talk-voting views read and write: conferences, talks,
 tickets and the vote store keyed by (user, talk).
 */
module Entities {
  import opened Wrappers
  import opened VotingOptions

  type UserId = int
  type TalkUuid = string
  type ConferenceCode = string

  /** The current conference; `votingOpen` is the result of its `voting()`
      time-window check, taken as given. */
  datatype Conference = Conference(code: ConferenceCode, votingOpen: bool)

  datatype Talk = Talk(uuid: TalkUuid, conference: ConferenceCode, createdBy: UserId)

  /** A ticket, owned by a user, for some conference (this year's or a past one). */
  datatype Ticket = Ticket(owner: UserId, conference: ConferenceCode)

  /** A vote row (`VotoTalk`) as the views see it. */
  datatype VoteRecord = VoteRecord(user: UserId, talk: TalkUuid, vote: int)

  type VoteKey = (UserId, TalkUuid)

  /** The vote table: one value per (user, talk) key. */
  type VoteStore = map<VoteKey, int>

  /** The stored vote for `key`, if there is one. */
  function Lookup(store: VoteStore, key: VoteKey): (r: Option<int>)
    ensures r.Some? <==> key in store
    ensures r.Some? ==> store[key] == r.value
  {
    if key in store then Some(store[key]) else None
  }

  /** The store's invariant: every stored value is an allowed vote other than
      the withdrawal value. */
  ghost predicate WellFormedStore(store: VoteStore) {
    forall k :: k in store ==> IsAllowed(store[k]) && store[k] != NoVoteValue
  }

  /** The store seen as a table of rows. */
  function Records(store: VoteStore): (rs: set<VoteRecord>)
    ensures forall k :: k in store ==> VoteRecord(k.0, k.1, store[k]) in rs
    ensures forall r :: r in rs ==> (r.user, r.talk) in store && store[(r.user, r.talk)] == r.vote
  {
    set k | k in store :: VoteRecord(k.0, k.1, store[k])
  }

  /** Two rows for the same (user, talk) pair never coexist. */
  lemma AtMostOneRecordPerPair(store: VoteStore, r1: VoteRecord, r2: VoteRecord)
    requires r1 in Records(store) && r2 in Records(store)
    requires r1.user == r2.user && r1.talk == r2.talk
    ensures r1 == r2
  {
  }

  /** The talk whose uuid is `uuid` (`get_object_or_404` on the uuid column);
      None stands for the not-found error. The uuid column is unique, so the
      first match is the only one. */
  function FindTalk(talks: seq<Talk>, uuid: TalkUuid): (r: Option<Talk>)
    ensures r.Some? ==> r.value in talks && r.value.uuid == uuid
    ensures r.None? ==> forall t :: t in talks ==> t.uuid != uuid
  {
    if |talks| == 0 then None
    else if talks[0].uuid == uuid then Some(talks[0])
    else FindTalk(talks[1..], uuid)
  }
}
