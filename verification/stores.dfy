/** The external stores the controllers consult, as immutable snapshots,
    and the writes a controller may hand to them.

    The vote store keeps at most one ballot per (user, poll) pair and a
    resubmission replaces the earlier ballot; that contract is modelled
    here so that a submission can be related to a later read. */
module Stores {
  import opened Domain
  import opened Outcomes

  /** What the stores hold when a request is served: the user directory
      (in `UserModel.getAll` order), the polls by identifier, the ballots,
      and the delegation pairs `DelegationController.check` answers from. */
  datatype Snapshot = Snapshot(
    users: seq<User>,
    polls: map<PollId, Poll>,
    votes: seq<Vote>,
    delegations: set<(UserId, UserId)>)

  /** The single write a successful request issues; its boolean reply is
      what the request answers. */
  datatype StoreCall =
    | SetPollState(pollId: PollId, state: PollState)
    | InsertPoll(poll: Poll)
    | RemovePoll(pollId: PollId)
    | UpsertVote(vote: Vote)
    | RemovePollVotes(pollId: PollId)

  /** `DelegationController.check(from, to)`. */
  predicate DelegationExists(s: Snapshot, from: UserId, to: UserId)
  {
    (from, to) in s.delegations
  }

  /** `UserController.getUser`: the first directory entry with the id, or
      NotFound. */
  function FindUser(users: seq<User>, id: UserId): (r: Result<User>)
    ensures r.Ok? <==> exists u :: u in users && u.userId == id
    ensures r.Ok? ==> r.value in users && r.value.userId == id
    ensures r.Err? ==> r.error == NotFound
  {
    if |users| == 0 then Err(NotFound)
    else if users[0].userId == id then Ok(users[0])
    else
      var r := FindUser(users[1..], id);
      assert forall u :: u in users && u.userId == id ==> u in users[1..];
      r
  }

  /** `VoteModel.get(userId, pollId)`: the stored ballot of that user in
      that poll, if any. */
  function Lookup(votes: seq<Vote>, userId: UserId, pollId: PollId): (r: Option<Vote>)
    ensures r.Some? <==> exists v :: v in votes && v.userId == userId && v.pollId == pollId
    ensures r.Some? ==> r.value in votes && r.value.userId == userId && r.value.pollId == pollId
  {
    if |votes| == 0 then None
    else if votes[0].userId == userId && votes[0].pollId == pollId then Some(votes[0])
    else
      var r := Lookup(votes[1..], userId, pollId);
      assert forall v :: v in votes && v.userId == userId && v.pollId == pollId ==> v in votes[1..];
      r
  }

  /** Number of stored ballots under the key (userId, pollId). */
  function KeyCount(votes: seq<Vote>, userId: UserId, pollId: PollId): nat
  {
    if |votes| == 0 then 0
    else (if votes[0].userId == userId && votes[0].pollId == pollId then 1 else 0)
         + KeyCount(votes[1..], userId, pollId)
  }

  /** The store's invariant: one ballot per (user, poll) pair. */
  ghost predicate OneVotePerKey(votes: seq<Vote>)
  {
    forall u, p :: KeyCount(votes, u, p) <= 1
  }

  /** The ballots not stored under the key (userId, pollId), in order. */
  function Without(votes: seq<Vote>, userId: UserId, pollId: PollId): (r: seq<Vote>)
    ensures forall v :: v in r <==> v in votes && !(v.userId == userId && v.pollId == pollId)
    ensures KeyCount(r, userId, pollId) == 0
  {
    if |votes| == 0 then []
    else if votes[0].userId == userId && votes[0].pollId == pollId then Without(votes[1..], userId, pollId)
    else [votes[0]] + Without(votes[1..], userId, pollId)
  }

  /** `VoteModel.getFromPollId`: the ballots cast in one poll, each kept
      as often as it is stored. */
  function FromPoll(votes: seq<Vote>, pollId: PollId): (r: seq<Vote>)
    ensures forall v :: v in r <==> v in votes && v.pollId == pollId
    ensures forall v :: multiset(r)[v] == if v.pollId == pollId then multiset(votes)[v] else 0
    ensures |r| <= |votes|
  {
    if |votes| == 0 then []
    else
      assert votes == [votes[0]] + votes[1..];
      if votes[0].pollId == pollId then [votes[0]] + FromPoll(votes[1..], pollId)
      else FromPoll(votes[1..], pollId)
  }

  /** Ballots that all belong to the poll are fetched whole, in order. */
  lemma {:induction false} FromPollKeepsOwnBallots(votes: seq<Vote>, pollId: PollId)
    requires forall i :: 0 <= i < |votes| ==> votes[i].pollId == pollId
    ensures FromPoll(votes, pollId) == votes
  {
    if |votes| > 0 {
      FromPollKeepsOwnBallots(votes[1..], pollId);
    }
  }

  /** `VoteModel.deleteByPollId`: every ballot of the poll removed. */
  function Purge(votes: seq<Vote>, pollId: PollId): (r: seq<Vote>)
    ensures forall v :: v in r <==> v in votes && v.pollId != pollId
    ensures forall v :: multiset(r)[v] == if v.pollId != pollId then multiset(votes)[v] else 0
    ensures |r| <= |votes|
  {
    if |votes| == 0 then []
    else
      assert votes == [votes[0]] + votes[1..];
      if votes[0].pollId == pollId then Purge(votes[1..], pollId)
      else [votes[0]] + Purge(votes[1..], pollId)
  }

  /** `VoteModel.addOrUpdateVote`: the new ballot replaces any earlier one
      under the same key. */
  function Upsert(votes: seq<Vote>, v: Vote): seq<Vote>
  {
    Without(votes, v.userId, v.pollId) + [v]
  }

  /** The vote store after a write; poll-store writes leave it alone. */
  function ApplyToVotes(votes: seq<Vote>, call: StoreCall): seq<Vote>
  {
    match call
    case UpsertVote(v) => Upsert(votes, v)
    case RemovePollVotes(p) => Purge(votes, p)
    case _ => votes
  }

  /** The poll store after a write. `newId` is the identifier the store
      gives an inserted poll; a state write to a missing poll changes
      nothing; vote-store writes leave the polls alone. */
  function ApplyToPolls(polls: map<PollId, Poll>, call: StoreCall, newId: PollId): map<PollId, Poll>
  {
    match call
    case SetPollState(p, st) => if p in polls then polls[p := polls[p].(state := st)] else polls
    case InsertPoll(poll) => polls[newId := poll]
    case RemovePoll(p) => polls - {p}
    case _ => polls
  }

  lemma {:induction false} LookupAppend(a: seq<Vote>, b: seq<Vote>, userId: UserId, pollId: PollId)
    ensures Lookup(a + b, userId, pollId)
         == if Lookup(a, userId, pollId).Some? then Lookup(a, userId, pollId) else Lookup(b, userId, pollId)
  {
    if |a| > 0 {
      assert (a + b)[1..] == a[1..] + b;
      LookupAppend(a[1..], b, userId, pollId);
    } else {
      assert a + b == b;
    }
  }

  lemma {:induction false} LookupWithout(votes: seq<Vote>, userId: UserId, pollId: PollId, u: UserId, p: PollId)
    requires !(u == userId && p == pollId)
    ensures Lookup(Without(votes, userId, pollId), u, p) == Lookup(votes, u, p)
  {
    if |votes| > 0 {
      LookupWithout(votes[1..], userId, pollId, u, p);
      if !(votes[0].userId == userId && votes[0].pollId == pollId) {
        var w := [votes[0]] + Without(votes[1..], userId, pollId);
        assert w[1..] == Without(votes[1..], userId, pollId);
      }
    }
  }

  lemma {:induction false} KeyCountAppend(a: seq<Vote>, b: seq<Vote>, userId: UserId, pollId: PollId)
    ensures KeyCount(a + b, userId, pollId) == KeyCount(a, userId, pollId) + KeyCount(b, userId, pollId)
  {
    if |a| > 0 {
      assert (a + b)[1..] == a[1..] + b;
      KeyCountAppend(a[1..], b, userId, pollId);
    } else {
      assert a + b == b;
    }
  }

  lemma {:induction false} KeyCountWithout(votes: seq<Vote>, userId: UserId, pollId: PollId, u: UserId, p: PollId)
    requires !(u == userId && p == pollId)
    ensures KeyCount(Without(votes, userId, pollId), u, p) == KeyCount(votes, u, p)
  {
    if |votes| > 0 {
      KeyCountWithout(votes[1..], userId, pollId, u, p);
      if !(votes[0].userId == userId && votes[0].pollId == pollId) {
        var w := [votes[0]] + Without(votes[1..], userId, pollId);
        assert w[1..] == Without(votes[1..], userId, pollId);
      }
    }
  }

  /** Last write wins: after an upsert the key holds exactly the new
      ballot, every other key reads as before, and the one-ballot-per-key
      invariant is kept. */
  lemma UpsertReplaces(votes: seq<Vote>, v: Vote)
    ensures Lookup(Upsert(votes, v), v.userId, v.pollId) == Some(v)
    ensures KeyCount(Upsert(votes, v), v.userId, v.pollId) == 1
    ensures forall u, p :: !(u == v.userId && p == v.pollId) ==>
      Lookup(Upsert(votes, v), u, p) == Lookup(votes, u, p)
    ensures OneVotePerKey(votes) ==> OneVotePerKey(Upsert(votes, v))
  {
    var w := Without(votes, v.userId, v.pollId);
    LookupAppend(w, [v], v.userId, v.pollId);
    KeyCountAppend(w, [v], v.userId, v.pollId);
    assert [v][1..] == [];
    forall u, p | !(u == v.userId && p == v.pollId)
      ensures Lookup(Upsert(votes, v), u, p) == Lookup(votes, u, p)
      ensures KeyCount(Upsert(votes, v), u, p) == KeyCount(votes, u, p)
    {
      LookupAppend(w, [v], u, p);
      LookupWithout(votes, v.userId, v.pollId, u, p);
      KeyCountAppend(w, [v], u, p);
      KeyCountWithout(votes, v.userId, v.pollId, u, p);
    }
  }

  /** After a purge the poll has no ballots and every other poll keeps its
      ballots in order. */
  lemma {:induction false} PurgeEmptiesOnlyThatPoll(votes: seq<Vote>, pollId: PollId, other: PollId)
    ensures FromPoll(Purge(votes, pollId), pollId) == []
    ensures other != pollId ==> FromPoll(Purge(votes, pollId), other) == FromPoll(votes, other)
  {
    if |votes| > 0 {
      PurgeEmptiesOnlyThatPoll(votes[1..], pollId, other);
      if votes[0].pollId != pollId {
        var w := [votes[0]] + Purge(votes[1..], pollId);
        assert w[1..] == Purge(votes[1..], pollId);
      }
    }
  }
}
