/**
 The talk list for voting (`talk_voting`): closed outside the voting
 window, unavailable to users without a ticket, and otherwise every talk of
 the current conference not written by the requester, each annotated with
 the requester's own vote rows.
 */
module Listing {
  import opened Entities
  import opened Eligibility

  /** A listed talk with the vote rows attached to it (`talk.votes`). */
  datatype AnnotatedTalk = AnnotatedTalk(talk: Talk, votes: set<VoteRecord>)

  datatype ListingResponse =
    | Closed
    | Unavailable(conference: Conference)
    | Listed(talks: seq<AnnotatedTalk>)

  /** The talk filter: belongs to the current conference and was not created
      by the requester. */
  predicate Visible(t: Talk, code: ConferenceCode, user: UserId) {
    t.conference == code && t.createdBy != user
  }

  /** The talk's vote rows, restricted to those of `user`. */
  function Annotate(store: VoteStore, user: UserId, t: Talk): AnnotatedTalk {
    AnnotatedTalk(t, set r | r in Records(store) && r.talk == t.uuid && r.user == user)
  }

  /** The listing over the talk table, in the order the table's rows come in. */
  function SelectTalks(talks: seq<Talk>, code: ConferenceCode, user: UserId, store: VoteStore): seq<AnnotatedTalk>
    decreases |talks|
  {
    if |talks| == 0 then []
    else
      var t := talks[|talks| - 1];
      SelectTalks(talks[..|talks| - 1], code, user, store)
        + (if Visible(t, code, user) then [Annotate(store, user, t)] else [])
  }

  /** An annotation holds the requester's single vote on the talk, if any,
      and no one else's. */
  lemma AnnotationIsRequesterVote(store: VoteStore, user: UserId, t: Talk)
    ensures (user, t.uuid) in store ==>
              Annotate(store, user, t).votes == {VoteRecord(user, t.uuid, store[(user, t.uuid)])}
    ensures (user, t.uuid) !in store ==> Annotate(store, user, t).votes == {}
    ensures forall r :: r in Annotate(store, user, t).votes ==> r.user == user && r.talk == t.uuid
  {
  }

  /** What the listing holds: exactly the annotations of the visible talks. */
  lemma {:induction false} SelectTalksMembers(talks: seq<Talk>, code: ConferenceCode, user: UserId, store: VoteStore)
    ensures forall a :: a in SelectTalks(talks, code, user, store) <==>
              a.talk in talks && Visible(a.talk, code, user) && a == Annotate(store, user, a.talk)
    decreases |talks|
  {
    if |talks| > 0 {
      var prefix := talks[..|talks| - 1];
      SelectTalksMembers(prefix, code, user, store);
      assert talks == prefix + [talks[|talks| - 1]];
    }
  }

  /** How often an annotated talk occurs in the listing: as often as its talk
      occurs in the table when it is a visible talk's annotation, else never. */
  lemma {:induction false} SelectTalksCount(talks: seq<Talk>, code: ConferenceCode, user: UserId, store: VoteStore, a: AnnotatedTalk)
    ensures multiset(SelectTalks(talks, code, user, store))[a] ==
              if Visible(a.talk, code, user) && a == Annotate(store, user, a.talk)
              then multiset(talks)[a.talk] else 0
    decreases |talks|
  {
    if |talks| > 0 {
      var prefix := talks[..|talks| - 1];
      SelectTalksCount(prefix, code, user, store, a);
      assert talks == prefix + [talks[|talks| - 1]];
    }
  }

  /** The listing is shuffled on every request; which talks it holds, and how
      often, does not depend on the order of the table's rows. */
  lemma OrderDoesNotMatter(talks: seq<Talk>, shuffled: seq<Talk>, code: ConferenceCode, user: UserId, store: VoteStore)
    requires multiset(shuffled) == multiset(talks)
    ensures multiset(SelectTalks(shuffled, code, user, store)) == multiset(SelectTalks(talks, code, user, store))
  {
    forall a
      ensures multiset(SelectTalks(shuffled, code, user, store))[a] == multiset(SelectTalks(talks, code, user, store))[a]
    {
      SelectTalksCount(talks, code, user, store, a);
      SelectTalksCount(shuffled, code, user, store, a);
    }
  }

  /** The listing view: the voting-window gate, then the eligibility gate,
      then the filtered and annotated talks. */
  method TalkVoting(conference: Conference, tickets: seq<Ticket>, talks: seq<Talk>, store: VoteStore, user: UserId)
    returns (r: ListingResponse)
    ensures !conference.votingOpen ==> r == Closed
    ensures conference.votingOpen && !OwnsTicket(tickets, user) ==> r == Unavailable(conference)
    ensures conference.votingOpen && OwnsTicket(tickets, user) ==>
              r == Listed(SelectTalks(talks, conference.code, user, store))
    // every listed talk belongs to the conference and is not the requester's
    ensures r.Listed? ==> forall a :: a in r.talks ==>
              a.talk in talks && a.talk.conference == conference.code && a.talk.createdBy != user
    // every such talk is listed
    ensures r.Listed? ==> forall t :: t in talks && Visible(t, conference.code, user) ==>
              Annotate(store, user, t) in r.talks
    // each listed talk carries only the requester's own vote on it
    ensures r.Listed? ==> forall a, v :: a in r.talks && v in a.votes ==>
              v.user == user && v.talk == a.talk.uuid && v in Records(store)
  {
    if !conference.votingOpen {
      return Closed;
    }
    var allowed := IsUserAllowedToVote(tickets, user);
    if !allowed {
      return Unavailable(conference);
    }
    var listed: seq<AnnotatedTalk> := [];
    var i := 0;
    while i < |talks|
      invariant 0 <= i <= |talks|
      invariant listed == SelectTalks(talks[..i], conference.code, user, store)
    {
      var t := talks[i];
      assert talks[..i + 1][..i] == talks[..i];
      if t.conference == conference.code && t.createdBy != user {
        listed := listed + [Annotate(store, user, t)];
      }
      i := i + 1;
    }
    assert talks[..i] == talks;
    SelectTalksMembers(talks, conference.code, user, store);
    return Listed(listed);
  }
}
