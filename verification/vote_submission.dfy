/**
 Reading and casting a vote on one talk (`vote_on_a_talk`). The view looks
 the talk up by uuid, then either shows the requester's current vote or, on
 a POST, applies the submitted value to the vote store: the withdrawal value
 deletes the record (or does nothing when there is none), any other allowed
 value creates or overwrites it.
 */
module VoteSubmission {
  import opened Wrappers
  import opened VotingOptions
  import opened Entities

  /** The incoming request: a POST carrying the already-parsed vote, or any
      other method, which only reads. */
  datatype Request = Get | Post(vote: int)

  /** What the view answers: the not-found error for an unknown uuid, the
      assertion failure for a value outside `All`, or the voting-control
      fragment for the talk with the requester's vote (None: no vote). */
  datatype Response = NotFound | VoteRejected | Form(talk: Talk, dbVote: Option<int>)

  /** The response together with the vote store after the request. */
  datatype Outcome = Outcome(response: Response, store: VoteStore)

  /** The vote the record for (user, talk) holds once `vote` has been submitted. */
  function Intended(vote: int): Option<int> {
    if vote == NoVoteValue then None else Some(vote)
  }

  function VoteOnTalk(talks: seq<Talk>, store: VoteStore, user: UserId, uuid: TalkUuid, req: Request): (r: Outcome)
    // errors: an unknown talk is not found (checked before the vote value)
    ensures r.response.NotFound? <==> forall t :: t in talks ==> t.uuid != uuid
    ensures r.response.VoteRejected? <==>
              (exists t :: t in talks && t.uuid == uuid) && req.Post? && !IsAllowed(req.vote)
    ensures !r.response.Form? ==> r.store == store
    // a read changes nothing
    ensures req.Get? ==> r.store == store
    // the fragment is about the requested talk and shows the resulting state
    ensures r.response.Form? ==> r.response.talk in talks && r.response.talk.uuid == uuid
    ensures r.response.Form? ==> r.response.dbVote == Lookup(r.store, (user, uuid))
    ensures r.response.Form? && req.Post? ==> Lookup(r.store, (user, uuid)) == Intended(req.vote)
    // only the (user, talk) record is ever touched
    ensures forall k :: k != (user, uuid) ==> Lookup(r.store, k) == Lookup(store, k)
    // the store's invariant is kept
    ensures WellFormedStore(store) ==> WellFormedStore(r.store)
  {
    match FindTalk(talks, uuid)
    case None => Outcome(NotFound, store)
    case Some(talk) =>
      var key := (user, talk.uuid);
      match req
      case Get => Outcome(Form(talk, Lookup(store, key)), store)
      case Post(vote) =>
        if !IsAllowed(vote) then Outcome(VoteRejected, store)
        else if key !in store then
          if vote == NoVoteValue then Outcome(Form(talk, None), store)
          else Outcome(Form(talk, Some(vote)), store[key := vote])
        else if vote == NoVoteValue then Outcome(Form(talk, None), store - {key})
        else Outcome(Form(talk, Some(vote)), store[key := vote])
  }

  /** The store after a request, for composing requests. */
  function StoreAfter(talks: seq<Talk>, store: VoteStore, user: UserId, uuid: TalkUuid, req: Request): VoteStore {
    VoteOnTalk(talks, store, user, uuid, req).store
  }

  /** A value outside the allowed set fails and leaves the store unchanged. */
  lemma RejectedVoteChangesNothing(talks: seq<Talk>, store: VoteStore, user: UserId, talk: Talk, vote: int)
    requires talk in talks
    requires !IsAllowed(vote)
    ensures VoteOnTalk(talks, store, user, talk.uuid, Post(vote)) == Outcome(VoteRejected, store)
  {
  }

  /** Withdrawing a vote that does not exist is a no-op and shows "no vote". */
  lemma WithdrawWithoutRecordIsNoOp(talks: seq<Talk>, store: VoteStore, user: UserId, uuid: TalkUuid)
    requires (user, uuid) !in store
    requires exists t :: t in talks && t.uuid == uuid
    ensures VoteOnTalk(talks, store, user, uuid, Post(NoVoteValue)).store == store
    ensures VoteOnTalk(talks, store, user, uuid, Post(NoVoteValue)).response.dbVote == None
  {
  }

  /** A first real vote creates exactly one record, holding that value. */
  lemma FirstVoteCreatesOneRecord(talks: seq<Talk>, store: VoteStore, user: UserId, uuid: TalkUuid, vote: int)
    requires (user, uuid) !in store
    requires exists t :: t in talks && t.uuid == uuid
    requires IsAllowed(vote) && vote != NoVoteValue
    ensures StoreAfter(talks, store, user, uuid, Post(vote)) == store[(user, uuid) := vote]
    ensures |StoreAfter(talks, store, user, uuid, Post(vote))| == |store| + 1
  {
  }

  /** Withdrawing an existing vote removes its record and shows "no vote". */
  lemma WithdrawDeletesRecord(talks: seq<Talk>, store: VoteStore, user: UserId, uuid: TalkUuid)
    requires (user, uuid) in store
    requires exists t :: t in talks && t.uuid == uuid
    ensures StoreAfter(talks, store, user, uuid, Post(NoVoteValue)) == store - {(user, uuid)}
    ensures |StoreAfter(talks, store, user, uuid, Post(NoVoteValue))| == |store| - 1
    ensures VoteOnTalk(talks, store, user, uuid, Post(NoVoteValue)).response.dbVote == None
  {
  }

  /** A real vote on a talk already voted on overwrites the value in place. */
  lemma RevoteOverwrites(talks: seq<Talk>, store: VoteStore, user: UserId, uuid: TalkUuid, vote: int)
    requires (user, uuid) in store
    requires exists t :: t in talks && t.uuid == uuid
    requires IsAllowed(vote) && vote != NoVoteValue
    ensures StoreAfter(talks, store, user, uuid, Post(vote)) == store[(user, uuid) := vote]
    ensures |StoreAfter(talks, store, user, uuid, Post(vote))| == |store|
  {
  }

  /** Submitting the same value twice gives the store submitting it once gives,
      and the same fragment. */
  lemma SubmitIdempotent(talks: seq<Talk>, store: VoteStore, user: UserId, uuid: TalkUuid, vote: int)
    ensures var once := VoteOnTalk(talks, store, user, uuid, Post(vote));
            var twice := VoteOnTalk(talks, once.store, user, uuid, Post(vote));
            twice == once
  {
  }

  /** A read reports the stored vote, if any, and changes nothing. */
  lemma GetReportsExistingVote(talks: seq<Talk>, store: VoteStore, user: UserId, talk: Talk)
    requires talk in talks
    ensures VoteOnTalk(talks, store, user, talk.uuid, Get).store == store
    ensures VoteOnTalk(talks, store, user, talk.uuid, Get).response.Form?
    ensures VoteOnTalk(talks, store, user, talk.uuid, Get).response.dbVote == Lookup(store, (user, talk.uuid))
  {
  }

  /** After a successful POST, a read of the same talk shows the submitted
      vote, or no vote after a withdrawal. */
  lemma ReadAfterWrite(talks: seq<Talk>, store: VoteStore, user: UserId, uuid: TalkUuid, vote: int)
    requires exists t :: t in talks && t.uuid == uuid
    requires IsAllowed(vote)
    ensures var after := StoreAfter(talks, store, user, uuid, Post(vote));
            VoteOnTalk(talks, after, user, uuid, Get).response.dbVote == Intended(vote)
  {
  }
}
