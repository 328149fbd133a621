/** The entities the vote and poll controllers work on: users of the
    directory, polls with their options, ballots, and the results record. */
module Domain {

  type UserId = string
  type PollId = string
  type GroupId = string

  /** A directory entry; the admin flag is not part of it, because the
      controllers only ever ask an external `isAdmin` oracle. */
  datatype User = User(userId: UserId, name: string, membership: seq<GroupId>)

  datatype PollState = Open | ClosedHidden | ClosedVisible

  datatype ApprovalRatio = Simple | Absolute | Supermajority

  datatype PollOption = PollOption(name: string, isAbstention: bool)

  /** A stored poll; its identifier is the key it is stored under. */
  datatype Poll = Poll(
    targetGroup: GroupId,
    isPrivate: bool,
    isPriority: bool,
    approvalRatio: ApprovalRatio,
    abstentionIsValid: bool,
    state: PollState,
    options: seq<PollOption>)

  /** A ballot. Only `option[0]` is read by the tally. */
  datatype Vote = Vote(pollId: PollId, userId: UserId, option: seq<string>)

  /** One `{ option, votes }` entry of the results. */
  datatype OptionCount = OptionCount(option: string, votes: nat)

  /** The `ResultsInterface` record: counts, labelled voter lists, winner. */
  datatype Results = Results(
    votes: seq<OptionCount>,
    voters: seq<(string, seq<string>)>,
    winner: string)

  /** An untyped request body after the shape validator has judged it:
      either it has the expected shape and reads as `value`, or it does not. */
  datatype Payload<T> = Wellformed(value: T) | Malformed
}
