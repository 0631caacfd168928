/**
 The five vote values a user may submit for a talk (the `VotingOptions`
 class of conference/talk_voting.py). The source keeps them as plain
 integers; `Choice` is the closed enumeration they stand for, and `Parse`
 is the check "the integer is one of the allowed values".
 */
module VotingOptions {
  import opened Wrappers

  datatype Choice = NoVote | NotInterested | Maybe | WantToSee | MustSee

  /** The integer the application stores and exchanges for each choice. */
  function Value(c: Choice): int {
    match c
    case NoVote => -1
    case NotInterested => 0
    case Maybe => 3
    case WantToSee => 7
    case MustSee => 10
  }

  /** `no_vote`: withdrawal of a vote; it is never stored. */
  const NoVoteValue: int := Value(NoVote)

  /** `VotingOptions.ALL`, in the source's order. */
  const All: seq<int> :=
    [Value(NoVote), Value(NotInterested), Value(Maybe), Value(WantToSee), Value(MustSee)]

  /** The membership test the submission view asserts. */
  predicate IsAllowed(v: int) {
    v in All
  }

  /** Reads an integer back as a choice; None for a value outside `All`. */
  function Parse(v: int): (r: Option<Choice>)
    ensures r.Some? <==> IsAllowed(v)
    ensures r.Some? ==> Value(r.value) == v
  {
    if v == -1 then Some(NoVote)
    else if v == 0 then Some(NotInterested)
    else if v == 3 then Some(Maybe)
    else if v == 7 then Some(WantToSee)
    else if v == 10 then Some(MustSee)
    else None
  }

  /** Every choice survives the trip through its integer. */
  lemma ParseValue(c: Choice)
    ensures Parse(Value(c)) == Some(c)
  {
  }

  /** Distinct choices have distinct integers, and exactly the allowed
      integers are values of some choice. */
  lemma ValueIsBijection()
    ensures forall c, d :: Value(c) == Value(d) ==> c == d
    ensures forall v :: IsAllowed(v) <==> exists c :: Value(c) == v
  {
  }

  /** The withdrawal value is the only negative one. */
  lemma OnlyWithdrawalIsNegative(v: int)
    requires IsAllowed(v)
    ensures v < 0 <==> v == NoVoteValue
  {
  }
}
