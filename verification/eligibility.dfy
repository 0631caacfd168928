/**
 Who may vote (`is_user_allowed_to_vote`): a user who owns at least one
 ticket, for this conference or any past one.
 */
module Eligibility {
  import opened Entities

  /** The eligibility rule: some ticket in the ticket table belongs to `user`. */
  predicate OwnsTicket(tickets: seq<Ticket>, user: UserId) {
    exists i :: 0 <= i < |tickets| && tickets[i].owner == user
  }

  /** Scans the ticket table for a ticket owned by `user`. */
  method IsUserAllowedToVote(tickets: seq<Ticket>, user: UserId) returns (allowed: bool)
    ensures allowed <==> OwnsTicket(tickets, user)
    ensures allowed ==> exists t :: t in tickets && t.owner == user
  {
    var i := 0;
    while i < |tickets|
      invariant 0 <= i <= |tickets|
      invariant forall j :: 0 <= j < i ==> tickets[j].owner != user
    {
      if tickets[i].owner == user {
        return true;
      }
      i := i + 1;
    }
    return false;
  }

  /** The conference a ticket was issued for plays no part: rewriting every
      ticket's conference leaves eligibility unchanged. */
  lemma AnyConferenceTicketCounts(tickets: seq<Ticket>, other: seq<Ticket>, user: UserId)
    requires |other| == |tickets|
    requires forall i :: 0 <= i < |tickets| ==> other[i].owner == tickets[i].owner
    ensures OwnsTicket(tickets, user) <==> OwnsTicket(other, user)
  {
  }

  /** Adding a ticket never takes eligibility away, and a new ticket for the
      user grants it. */
  lemma TicketGrantsEligibility(tickets: seq<Ticket>, t: Ticket, user: UserId)
    ensures OwnsTicket(tickets, user) ==> OwnsTicket(tickets + [t], user)
    ensures t.owner == user ==> OwnsTicket(tickets + [t], user)
  {
    if OwnsTicket(tickets, user) {
      var i :| 0 <= i < |tickets| && tickets[i].owner == user;
      assert (tickets + [t])[i] == tickets[i];
    }
    if t.owner == user {
      assert (tickets + [t])[|tickets|] == t;
    }
  }
}
