/** `PollController`: membership-gated reads of polls and admin-gated
    writes. The admin role is the answer of the external
    `UserController.isAdmin` oracle, passed in as `callerIsAdmin`. */
module PollController {
  import opened Domain
  import opened Outcomes
  import opened Stores

  /** `getPolls`: looks the caller up and queries the poll store with the
      caller's membership as the filter; the filtering is the store's. */
  function GetPolls(users: seq<User>, userId: UserId): (r: Result<seq<GroupId>>)
    ensures r.Err? ==> r.error == NotFound
    ensures r.Ok? <==> exists u :: u in users && u.userId == userId
    ensures r.Ok? ==> exists u :: u in users && u.userId == userId && r.value == u.membership
  {
    var user :- FindUser(users, userId);
    Ok(user.membership)
  }

  /** `getPoll`: the poll is returned exactly when the caller exists, the
      poll exists and the caller's membership lists the poll's target
      group; a member of other groups only is refused with 401. */
  function GetPoll(users: seq<User>, polls: map<PollId, Poll>, userId: UserId, pollId: PollId): (r: Result<Poll>)
    ensures r.Ok? <==>
      && FindUser(users, userId).Ok?
      && pollId in polls
      && polls[pollId].targetGroup in FindUser(users, userId).value.membership
    ensures r.Ok? ==> r.value == polls[pollId]
    ensures FindUser(users, userId).Err? || pollId !in polls ==> r == Err(NotFound)
    ensures FindUser(users, userId).Ok? && pollId in polls
            && polls[pollId].targetGroup !in FindUser(users, userId).value.membership
            ==> r == Err(Unauthorized)
  {
    var user :- FindUser(users, userId);
    if pollId !in polls then Err(NotFound)
    else
      var poll := polls[pollId];
      if poll.targetGroup in user.membership then Ok(poll) else Err(Unauthorized)
  }

  /** `updateState`: the admin check comes first, so a non-admin is refused
      with 401 whatever the body; an admin with a malformed state gets 400;
      otherwise the state write is issued and its reply returned. */
  function UpdateState(callerIsAdmin: bool, pollId: PollId, body: Payload<PollState>): (r: Result<StoreCall>)
    ensures !callerIsAdmin ==> r == Err(Unauthorized)
    ensures callerIsAdmin && body.Malformed? ==> r == Err(BadRequest)
    ensures r.Ok? <==> callerIsAdmin && body.Wellformed?
    ensures r.Ok? ==> r.value == SetPollState(pollId, body.value)
  {
    if callerIsAdmin then
      if body.Malformed? then Err(BadRequest)
      else Ok(SetPollState(pollId, body.value))
    else Err(Unauthorized)
  }

  /** `addPoll`: same shape as `updateState`, issuing the insertion of the
      validated poll. */
  function AddPoll(callerIsAdmin: bool, body: Payload<Poll>): (r: Result<StoreCall>)
    ensures !callerIsAdmin ==> r == Err(Unauthorized)
    ensures callerIsAdmin && body.Malformed? ==> r == Err(BadRequest)
    ensures r.Ok? <==> callerIsAdmin && body.Wellformed?
    ensures r.Ok? ==> r.value == InsertPoll(body.value)
  {
    if callerIsAdmin then
      if body.Malformed? then Err(BadRequest)
      else Ok(InsertPoll(body.value))
    else Err(Unauthorized)
  }

  /** `deletePoll`: a non-admin is refused and nothing is deleted; an admin
      gets the store's answer to the deletion. */
  function DeletePoll(callerIsAdmin: bool, pollId: PollId): (r: Result<StoreCall>)
    ensures r.Ok? <==> callerIsAdmin
    ensures r.Err? ==> r.error == Unauthorized
    ensures r.Ok? ==> r.value == RemovePoll(pollId)
  {
    if callerIsAdmin then Ok(RemovePoll(pollId)) else Err(Unauthorized)
  }

  /** A poll inserted by an admin under a fresh identifier is shown exactly
      to the known users of its target group and refused to other known
      users; every poll already stored reads as before. */
  lemma AddedPollVisibleToItsGroup(
    users: seq<User>, polls: map<PollId, Poll>, callerIsAdmin: bool, poll: Poll, newId: PollId, userId: UserId)
    requires AddPoll(callerIsAdmin, Wellformed(poll)).Ok?
    requires newId !in polls
    ensures var after := ApplyToPolls(polls, AddPoll(callerIsAdmin, Wellformed(poll)).value, newId);
      && ((FindUser(users, userId).Ok? && poll.targetGroup in FindUser(users, userId).value.membership)
          ==> GetPoll(users, after, userId, newId) == Ok(poll))
      && ((FindUser(users, userId).Ok? && poll.targetGroup !in FindUser(users, userId).value.membership)
          ==> GetPoll(users, after, userId, newId) == Err(Unauthorized))
      && forall q :: q in polls ==> GetPoll(users, after, userId, q) == GetPoll(users, polls, userId, q)
  {
    var after := ApplyToPolls(polls, AddPoll(callerIsAdmin, Wellformed(poll)).value, newId);
    assert after == polls[newId := poll];
  }

  /** Once an admin's deletion is applied, the poll is not found by anyone,
      and every other poll reads as before. */
  lemma DeletedPollNotFound(
    users: seq<User>, polls: map<PollId, Poll>, callerIsAdmin: bool, pollId: PollId, userId: UserId)
    requires DeletePoll(callerIsAdmin, pollId).Ok?
    ensures var after := ApplyToPolls(polls, DeletePoll(callerIsAdmin, pollId).value, pollId);
      && GetPoll(users, after, userId, pollId) == Err(NotFound)
      && forall q :: q != pollId ==> GetPoll(users, after, userId, q) == GetPoll(users, polls, userId, q)
  {
    var after := ApplyToPolls(polls, DeletePoll(callerIsAdmin, pollId).value, pollId);
    assert after == polls - {pollId};
  }
}
