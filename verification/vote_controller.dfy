/** `VoteController`: who may read a ballot, who may cast one (directly or
    for a delegator), the bulk deletion of a poll's ballots, and the results
    of a closed poll. */
module VoteController {
  import opened Domain
  import opened Outcomes
  import opened Stores
  import opened Tally
  import PollController

  // ---------------------------------------------------------------------
  // Reading a ballot

  /** The poll `getVote` judges by: the one the caller already holds, or the
      one `getPoll` grants the requester, which only a known member of the
      poll's target group is given. */
  function ResolvePoll(db: Snapshot, requester: UserId, pollId: PollId, hint: Option<Poll>): (r: Result<Poll>)
    ensures hint.Some? ==> r == Ok(hint.value)
    ensures hint.None? && r.Ok? ==> pollId in db.polls && r.value == db.polls[pollId]
    ensures hint.None? ==>
      (r.Ok? <==>
        && FindUser(db.users, requester).Ok?
        && pollId in db.polls
        && db.polls[pollId].targetGroup in FindUser(db.users, requester).value.membership)
    ensures hint.None? && FindUser(db.users, requester).Ok? && pollId in db.polls
            && db.polls[pollId].targetGroup !in FindUser(db.users, requester).value.membership
            ==> r == Err(Unauthorized)
    ensures r.Err? ==> hint.None? && (r.error == NotFound || r.error == Unauthorized)
  {
    match hint
    case Some(p) => Ok(p)
    case None => PollController.GetPoll(db.users, db.polls, requester, pollId)
  }

  /** A private poll's ballot is hidden from anyone but its voter, except
      from a delegate while the poll is still open. */
  predicate BallotHidden(poll: Poll, requester: UserId, target: UserId, delegated: bool)
  {
    poll.isPrivate && requester != target && (!delegated || poll.state != Open)
  }

  /** `getVote`: refuses with 401 exactly when the ballot is hidden from the
      requester; otherwise answers the stored ballot of the target in the
      poll, which may be absent. */
  function GetVote(db: Snapshot, requester: UserId, target: UserId, pollId: PollId, hint: Option<Poll>): (r: Result<Option<Vote>>)
    ensures ResolvePoll(db, requester, pollId, hint).Err? ==>
      r == Err(ResolvePoll(db, requester, pollId, hint).error)
    ensures ResolvePoll(db, requester, pollId, hint).Ok? ==>
      (r.Err? <==> BallotHidden(ResolvePoll(db, requester, pollId, hint).value, requester, target,
                                DelegationExists(db, requester, target)))
    ensures ResolvePoll(db, requester, pollId, hint).Ok? && r.Err? ==> r.error == Unauthorized
    ensures r.Ok? ==> r.value == Lookup(db.votes, target, pollId)
    ensures r.Ok? && r.value.Some? ==> r.value.value.userId == target && r.value.value.pollId == pollId
  {
    var poll :- ResolvePoll(db, requester, pollId, hint);
    var existsDelegation := DelegationExists(db, requester, target);
    if poll.isPrivate && requester != target
       && (!existsDelegation || (existsDelegation && poll.state != Open))
    then Err(Unauthorized)
    else Ok(Lookup(db.votes, target, pollId))
  }

  // ---------------------------------------------------------------------
  // Bulk deletion

  /** `deleteVotesByPollId` as written: the caller is refused when the
      admin oracle answers truthy, so only non-admins reach the deletion. */
  function DeleteVotesByPollId(callerIsAdmin: bool, pollId: PollId): (r: Result<StoreCall>)
    ensures r.Ok? <==> !callerIsAdmin
    ensures r.Err? ==> r.error == Unauthorized
    ensures r.Ok? ==> r.value == RemovePollVotes(pollId)
  {
    if callerIsAdmin then Err(Unauthorized) else Ok(RemovePollVotes(pollId))
  }

  // ---------------------------------------------------------------------
  // Casting a ballot

  /** `delegatedId` is truthy: given and not the empty string. */
  predicate Delegating(delegatedId: Option<UserId>)
  {
    delegatedId.Some? && delegatedId.value != ""
  }

  /** `auxUserId`: the voter of record. */
  function EffectiveVoter(requester: UserId, delegatedId: Option<UserId>): (r: UserId)
    ensures Delegating(delegatedId) ==> r == delegatedId.value && r != ""
    ensures r != requester ==> Delegating(delegatedId)
  {
    if !Delegating(delegatedId) then requester else delegatedId.value
  }

  /** `addorUpdateVote`. The checks run in this order and the first that
      fails decides the error: the body's shape (400), the delegation
      (401, before any poll is fetched), access to the poll for the voter of
      record (401 or 404), the poll being open (401). Only when all pass is
      the upsert issued, with the voter of record as `userId` whatever the
      body said. */
  function AddOrUpdateVote(db: Snapshot, requester: UserId, body: Payload<Vote>, delegatedId: Option<UserId>): (r: Result<StoreCall>)
    ensures body.Malformed? ==> r == Err(BadRequest)
    ensures body.Wellformed? && Delegating(delegatedId) && !DelegationExists(db, requester, delegatedId.value)
            ==> r == Err(Unauthorized)
    ensures r.Ok? <==>
      && body.Wellformed?
      && (Delegating(delegatedId) ==> DelegationExists(db, requester, delegatedId.value))
      && PollController.GetPoll(db.users, db.polls, EffectiveVoter(requester, delegatedId), body.value.pollId).Ok?
      && PollController.GetPoll(db.users, db.polls, EffectiveVoter(requester, delegatedId), body.value.pollId).value.state == Open
    ensures body.Wellformed? && (Delegating(delegatedId) ==> DelegationExists(db, requester, delegatedId.value))
            && PollController.GetPoll(db.users, db.polls, EffectiveVoter(requester, delegatedId), body.value.pollId).Err?
            ==> r == Err(PollController.GetPoll(db.users, db.polls, EffectiveVoter(requester, delegatedId), body.value.pollId).error)
    ensures body.Wellformed? && (Delegating(delegatedId) ==> DelegationExists(db, requester, delegatedId.value))
            && PollController.GetPoll(db.users, db.polls, EffectiveVoter(requester, delegatedId), body.value.pollId).Ok?
            && PollController.GetPoll(db.users, db.polls, EffectiveVoter(requester, delegatedId), body.value.pollId).value.state != Open
            ==> r == Err(Unauthorized)
    ensures r.Err? ==> r.error != ServerError
    ensures r.Ok? ==> r.value.UpsertVote?
    ensures r.Ok? ==> r.value.vote.pollId == body.value.pollId && r.value.vote.option == body.value.option
    ensures r.Ok? ==> r.value.vote.userId == (if Delegating(delegatedId) then delegatedId.value else requester)
  {
    var auxUserId := EffectiveVoter(requester, delegatedId);
    if body.Malformed? then Err(BadRequest)
    else
      var vote := body.value.(userId := auxUserId);
      if Delegating(delegatedId) && !DelegationExists(db, requester, delegatedId.value) then Err(Unauthorized)
      else
        var poll :- PollController.GetPoll(db.users, db.polls, auxUserId, vote.pollId);
        if poll.state != Open then Err(Unauthorized)
        else Ok(UpsertVote(vote))
  }

  /** A voter who casts a ballot and then asks for their own ballot in the
      same poll gets back exactly the ballot just stored. */
  lemma SubmitThenReadOwnBallot(db: Snapshot, requester: UserId, body: Payload<Vote>)
    requires AddOrUpdateVote(db, requester, body, None).Ok?
    ensures var call := AddOrUpdateVote(db, requester, body, None).value;
      var after := db.(votes := ApplyToVotes(db.votes, call));
      GetVote(after, requester, requester, body.value.pollId, None) == Ok(Some(call.vote))
  {
    var call := AddOrUpdateVote(db, requester, body, None).value;
    UpsertReplaces(db.votes, call.vote);
  }

  /** A delegate who casts a ballot for a delegator, and may open the poll
      themself, can read that ballot back while the poll is open. */
  lemma DelegateReadsBallotCast(db: Snapshot, requester: UserId, body: Payload<Vote>, delegator: UserId)
    requires delegator != ""
    requires AddOrUpdateVote(db, requester, body, Some(delegator)).Ok?
    requires PollController.GetPoll(db.users, db.polls, requester, body.value.pollId).Ok?
    ensures var call := AddOrUpdateVote(db, requester, body, Some(delegator)).value;
      var after := db.(votes := ApplyToVotes(db.votes, call));
      GetVote(after, requester, delegator, body.value.pollId, None) == Ok(Some(call.vote))
  {
    var call := AddOrUpdateVote(db, requester, body, Some(delegator)).value;
    UpsertReplaces(db.votes, call.vote);
  }

  // ---------------------------------------------------------------------
  // Results

  /** `getPriorityResults`: a stub that ignores the poll and answers one
      empty result naming no winner. */
  function PriorityResults(pollId: PollId, options: seq<PollOption>, isPrivate: bool): (r: seq<Results>)
    ensures |r| == 1 && |r[0].votes| == 0 && |r[0].voters| == 0 && r[0].winner == ""
  {
    [Results([], [], "")]
  }

  /** `getResults`. A missing poll is 404; an open poll is 401 for every
      caller; a hidden closed poll is 401 unless the caller is an admin; a
      visible closed poll is open to anyone. A priority poll answers the
      stub; any other poll answers a one-element list from the normal
      tally over the poll's ballots and the whole directory. */
  function GetResults(db: Snapshot, callerIsAdmin: bool, pollId: PollId): (r: Result<seq<Results>>)
    ensures pollId !in db.polls ==> r == Err(NotFound)
    ensures pollId in db.polls && db.polls[pollId].state == Open ==> r == Err(Unauthorized)
    ensures pollId in db.polls && db.polls[pollId].state == ClosedHidden ==> (r == Err(Unauthorized) <==> !callerIsAdmin)
    ensures pollId in db.polls && db.polls[pollId].state == ClosedVisible ==> r != Err(Unauthorized) && r != Err(NotFound)
    ensures r.Ok? ==> pollId in db.polls && db.polls[pollId].state != Open
                      && (db.polls[pollId].state == ClosedHidden ==> callerIsAdmin)
    ensures r.Err? ==> r.error != BadRequest
    ensures r == Err(ServerError) ==>
      pollId in db.polls && !db.polls[pollId].isPriority && db.polls[pollId].approvalRatio == Simple
    ensures pollId in db.polls && db.polls[pollId].state != Open
            && (db.polls[pollId].state == ClosedHidden ==> callerIsAdmin) ==>
      var p := db.polls[pollId];
      (r.Ok? <==> p.isPriority || NormalResults(p.options, p.isPrivate, p.approvalRatio, p.abstentionIsValid,
                                                 FromPoll(db.votes, pollId), db.users).Ok?)
    ensures pollId in db.polls && db.polls[pollId].isPriority && r.Ok? ==> r.value == [Results([], [], "")]
    ensures pollId in db.polls && !db.polls[pollId].isPriority && r.Ok? ==>
      var p := db.polls[pollId];
      var normal := NormalResults(p.options, p.isPrivate, p.approvalRatio, p.abstentionIsValid,
                                  FromPoll(db.votes, pollId), db.users);
      normal.Ok? && r.value == [normal.value]
  {
    if pollId !in db.polls then Err(NotFound)
    else
      var poll := db.polls[pollId];
      if poll.state == Open || (poll.state == ClosedHidden && !callerIsAdmin) then Err(Unauthorized)
      else if poll.isPriority then Ok(PriorityResults(pollId, poll.options, poll.isPrivate))
      else
        var normal :- NormalResults(poll.options, poll.isPrivate, poll.approvalRatio, poll.abstentionIsValid,
                                    FromPoll(db.votes, pollId), db.users);
        Ok([normal])
  }

  /** The two-option ABSOLUTE example: three ballots for A and one for B.
      The ascending sort puts B first and 1 out of 2 options is not more
      than half, so no winner is named, and the counts come back reordered. */
  lemma AbsoluteExampleHasNoWinner()
    ensures var a := PollOption("A", false);
      var b := PollOption("B", false);
      var poll := Poll("g", false, false, Absolute, true, ClosedVisible, [a, b]);
      var ballots := [Vote("p", "u1", ["A"]), Vote("p", "u2", ["A"]), Vote("p", "u3", ["A"]), Vote("p", "u4", ["B"])];
      var db := Snapshot([], map["p" := poll], ballots, {});
      GetResults(db, false, "p") == Ok([Results([OptionCount("B", 1), OptionCount("A", 3)],
                                               [("A", []), ("B", [])], "")])
  {
    var a := PollOption("A", false);
    var b := PollOption("B", false);
    var ballots := [Vote("p", "u1", ["A"]), Vote("p", "u2", ["A"]), Vote("p", "u3", ["A"]), Vote("p", "u4", ["B"])];
    var poll := Poll("g", false, false, Absolute, true, ClosedVisible, [a, b]);
    var db := Snapshot([], map["p" := poll], ballots, {});
    ExampleBallotsOfPoll(ballots);
    ExampleNormalResults([a, b], ballots);
    ClosedVisibleNormalResults(db, false, "p");
  }

  /** How `GetResults` answers for a visible, closed, non-priority poll. */
  lemma ClosedVisibleNormalResults(db: Snapshot, callerIsAdmin: bool, pollId: PollId)
    requires pollId in db.polls && db.polls[pollId].state == ClosedVisible && !db.polls[pollId].isPriority
    requires db.polls[pollId].approvalRatio != Simple
    ensures var p := db.polls[pollId];
      var normal := NormalResults(p.options, p.isPrivate, p.approvalRatio, p.abstentionIsValid,
                                  FromPoll(db.votes, pollId), db.users);
      GetResults(db, callerIsAdmin, pollId) == Ok([normal.value])
  {
  }

  lemma ExampleBallotsOfPoll(ballots: seq<Vote>)
    requires ballots == [Vote("p", "u1", ["A"]), Vote("p", "u2", ["A"]), Vote("p", "u3", ["A"]), Vote("p", "u4", ["B"])]
    ensures FromPoll(ballots, "p") == ballots
  {
    forall i | 0 <= i < |ballots| ensures ballots[i].pollId == "p" {
    }
    FromPollKeepsOwnBallots(ballots, "p");
  }

  lemma ExampleNormalResults(options: seq<PollOption>, ballots: seq<Vote>)
    requires options == [PollOption("A", false), PollOption("B", false)]
    requires ballots == [Vote("p", "u1", ["A"]), Vote("p", "u2", ["A"]), Vote("p", "u3", ["A"]), Vote("p", "u4", ["B"])]
    ensures NormalResults(options, false, Absolute, true, ballots, [])
            == Ok(Results([OptionCount("B", 1), OptionCount("A", 3)], [("A", []), ("B", [])], ""))
  {
    var sorted := [OptionCount("B", 1), OptionCount("A", 3)];
    var entries := [OptionCount("A", 3), OptionCount("B", 1)];
    ExampleEntries(options, ballots);
    ExampleSortAndFilter(options, entries);
    assert SortedTally(options, Absolute, ballots) == sorted;
    assert Candidates(options, Absolute, true, ballots) == sorted;
    assert ValidOptionCount(options, true) == 2;
    assert Winner(Absolute, sorted, 2) == Ok("");
    assert Disclose(false, VoterLists(options, ballots, [])) == [("A", []), ("B", [])];
  }

  lemma ExampleEntries(options: seq<PollOption>, ballots: seq<Vote>)
    requires options == [PollOption("A", false), PollOption("B", false)]
    requires ballots == [Vote("p", "u1", ["A"]), Vote("p", "u2", ["A"]), Vote("p", "u3", ["A"]), Vote("p", "u4", ["B"])]
    ensures TallyEntries(options, ballots) == [OptionCount("A", 3), OptionCount("B", 1)]
    ensures VoterLists(options, ballots, []) == [("A", []), ("B", [])]
  {
    ExampleTally(ballots);
  }

  lemma ExampleSortAndFilter(options: seq<PollOption>, entries: seq<OptionCount>)
    requires options == [PollOption("A", false), PollOption("B", false)]
    requires entries == [OptionCount("A", 3), OptionCount("B", 1)]
    ensures Sorting.Sort(Sorting.CountDifference, entries) == [OptionCount("B", 1), OptionCount("A", 3)]
    ensures Survivors(options, true, [OptionCount("B", 1), OptionCount("A", 3)])
            == [OptionCount("B", 1), OptionCount("A", 3)]
  {
    var sorted := [OptionCount("B", 1), OptionCount("A", 3)];
    var b1 := [OptionCount("B", 1)];
    assert entries[1..] == b1 && b1[1..] == [];
    assert Sorting.Sort(Sorting.CountDifference, b1) == b1;
    assert Sorting.Insert(Sorting.CountDifference, OptionCount("A", 3), b1) == sorted;
    ValidAbstentionKeepsAll(options, sorted);
  }

  lemma ExampleTally(ballots: seq<Vote>)
    requires ballots == [Vote("p", "u1", ["A"]), Vote("p", "u2", ["A"]), Vote("p", "u3", ["A"]), Vote("p", "u4", ["B"])]
    ensures CountVotes(ballots, "A") == 3 && CountVotes(ballots, "B") == 1
  {
    var tail3 := ballots[3..];
    var tail2 := ballots[2..];
    var tail1 := ballots[1..];
    assert tail3[1..] == [] && tail2[1..] == tail3 && tail1[1..] == tail2 && ballots[1..] == tail1;
    assert CountVotes(tail3, "A") == 0 && CountVotes(tail3, "B") == 1;
    assert CountVotes(tail2, "A") == 1 && CountVotes(tail2, "B") == 1;
    assert CountVotes(tail1, "A") == 2 && CountVotes(tail1, "B") == 1;
  }

  // ---------------------------------------------------------------------
  // Writes followed by reads

  /** Once an admin's state write to a state other than open is applied,
      no ballot for the poll is accepted any more; one that would have
      passed the access checks is refused with 401. */
  lemma ClosingStopsVoting(
    db: Snapshot, callerIsAdmin: bool, pollId: PollId, state: PollState,
    requester: UserId, body: Payload<Vote>, delegatedId: Option<UserId>)
    requires PollController.UpdateState(callerIsAdmin, pollId, Wellformed(state)).Ok?
    requires state != Open
    requires body.Wellformed? && body.value.pollId == pollId
    ensures var call := PollController.UpdateState(callerIsAdmin, pollId, Wellformed(state)).value;
      var after := db.(polls := ApplyToPolls(db.polls, call, pollId));
      && AddOrUpdateVote(after, requester, body, delegatedId).Err?
      && ((Delegating(delegatedId) ==> DelegationExists(db, requester, delegatedId.value))
          && PollController.GetPoll(db.users, db.polls, EffectiveVoter(requester, delegatedId), pollId).Ok?
          ==> AddOrUpdateVote(after, requester, body, delegatedId) == Err(Unauthorized))
  {
    var call := PollController.UpdateState(callerIsAdmin, pollId, Wellformed(state)).value;
    var after := db.(polls := ApplyToPolls(db.polls, call, pollId));
    if pollId in db.polls {
      assert after.polls[pollId].state == state;
    }
  }

  /** Once an admin's write makes a poll closed and visible, its results
      are refused to nobody: every caller gets them, save the server error
      of a SIMPLE tally with no surviving option. */
  lemma PublishingOpensResults(db: Snapshot, callerIsAdmin: bool, pollId: PollId, anyCaller: bool)
    requires PollController.UpdateState(callerIsAdmin, pollId, Wellformed(ClosedVisible)).Ok?
    requires pollId in db.polls
    ensures var call := PollController.UpdateState(callerIsAdmin, pollId, Wellformed(ClosedVisible)).value;
      var after := db.(polls := ApplyToPolls(db.polls, call, pollId));
      && (GetResults(after, anyCaller, pollId).Err? ==> GetResults(after, anyCaller, pollId) == Err(ServerError))
      && (db.polls[pollId].isPriority || db.polls[pollId].approvalRatio != Simple ==> GetResults(after, anyCaller, pollId).Ok?)
  {
    var call := PollController.UpdateState(callerIsAdmin, pollId, Wellformed(ClosedVisible)).value;
    var after := db.(polls := ApplyToPolls(db.polls, call, pollId));
    assert after.polls[pollId] == db.polls[pollId].(state := ClosedVisible);
  }

  /** Once an admin's deletion of a poll is applied, its results are not
      found, and every other poll's results are unchanged. */
  lemma DeletedPollHasNoResults(db: Snapshot, callerIsAdmin: bool, pollId: PollId, anyCaller: bool, other: PollId)
    requires PollController.DeletePoll(callerIsAdmin, pollId).Ok?
    ensures var call := PollController.DeletePoll(callerIsAdmin, pollId).value;
      var after := db.(polls := ApplyToPolls(db.polls, call, pollId));
      && GetResults(after, anyCaller, pollId) == Err(NotFound)
      && (other != pollId ==> GetResults(after, anyCaller, other) == GetResults(db, anyCaller, other))
  {
    var call := PollController.DeletePoll(callerIsAdmin, pollId).value;
    var after := db.(polls := ApplyToPolls(db.polls, call, pollId));
    assert after.polls == db.polls - {pollId};
  }

  /** Once the bulk deletion is applied, the poll has no ballots left and
      every other poll keeps its ballots, in order, and its results. */
  lemma ClearedPollKeepsOtherPolls(db: Snapshot, callerIsAdmin: bool, pollId: PollId, anyCaller: bool, other: PollId)
    requires DeleteVotesByPollId(callerIsAdmin, pollId).Ok?
    ensures var after := db.(votes := ApplyToVotes(db.votes, DeleteVotesByPollId(callerIsAdmin, pollId).value));
      && FromPoll(after.votes, pollId) == []
      && (other != pollId ==> FromPoll(after.votes, other) == FromPoll(db.votes, other))
      && (other != pollId ==> GetResults(after, anyCaller, other) == GetResults(db, anyCaller, other))
  {
    PurgeEmptiesOnlyThatPoll(db.votes, pollId, other);
  }
}
