/**
 Sequences of voting requests, each handled on its own against the shared
 vote store, one after the other.
 */
module VoteHistory {
  import opened Wrappers
  import opened VotingOptions
  import opened Entities
  import opened VoteSubmission

  /** One request to the voting view: who sent it, for which talk uuid, and what. */
  datatype Step = Step(user: UserId, uuid: TalkUuid, request: Request)

  /** The store after handling `steps` in order, starting from `store`. */
  function Replay(talks: seq<Talk>, store: VoteStore, steps: seq<Step>): (r: VoteStore)
    ensures WellFormedStore(store) ==> WellFormedStore(r)
    ensures (forall i :: 0 <= i < |steps| ==> steps[i].request.Get?) ==> r == store
    decreases |steps|
  {
    if |steps| == 0 then store
    else
      var last := steps[|steps| - 1];
      StoreAfter(talks, Replay(talks, store, steps[..|steps| - 1]), last.user, last.uuid, last.request)
  }

  /** Whether `s` changes what is recorded for `key`: an accepted POST by
      that user for a talk with that uuid. */
  predicate Writes(talks: seq<Talk>, s: Step, key: VoteKey) {
    && s.user == key.0
    && s.uuid == key.1
    && FindTalk(talks, s.uuid).Some?
    && s.request.Post?
    && IsAllowed(s.request.vote)
  }

  /** What the last step writing `key` leaves behind: None when no step
      writes `key`, otherwise Some of the vote it records (None: withdrawn). */
  function LastWrite(talks: seq<Talk>, steps: seq<Step>, key: VoteKey): Option<Option<int>>
    decreases |steps|
  {
    if |steps| == 0 then None
    else if Writes(talks, steps[|steps| - 1], key) then Some(Intended(steps[|steps| - 1].request.vote))
    else LastWrite(talks, steps[..|steps| - 1], key)
  }

  /** Last write wins: after any sequence of requests, the vote recorded for
      a (user, talk) pair is the one the last accepted POST for that pair
      submitted, or the original one when no such POST happened. */
  lemma {:induction false} LastWriteWins(talks: seq<Talk>, store: VoteStore, steps: seq<Step>, key: VoteKey)
    ensures Lookup(Replay(talks, store, steps), key) ==
              match LastWrite(talks, steps, key)
              case None => Lookup(store, key)
              case Some(v) => v
    decreases |steps|
  {
    if |steps| > 0 {
      var prefix := steps[..|steps| - 1];
      var last := steps[|steps| - 1];
      var before := Replay(talks, store, prefix);
      LastWriteWins(talks, store, prefix, key);
      if !Writes(talks, last, key) {
        assert Lookup(StoreAfter(talks, before, last.user, last.uuid, last.request), key) == Lookup(before, key);
      }
    }
  }

  /** Requests of other users never change a user's votes. */
  lemma {:induction false} OthersCannotTouchMyVotes(talks: seq<Talk>, store: VoteStore, steps: seq<Step>, user: UserId, uuid: TalkUuid)
    requires forall i :: 0 <= i < |steps| ==> steps[i].user != user
    ensures Lookup(Replay(talks, store, steps), (user, uuid)) == Lookup(store, (user, uuid))
    decreases |steps|
  {
    if |steps| > 0 {
      OthersCannotTouchMyVotes(talks, store, steps[..|steps| - 1], user, uuid);
    }
  }
}
