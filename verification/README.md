# Vote and poll decision logic of the voting back end

This project models, in Dafny, the server-side decision logic of a poll and
voting back end: who may see a poll, who may read or cast a ballot (directly
or for a delegator), the admin-only poll administration, and the result
tabulator that counts ballots per option, applies an approval-ratio rule
(SIMPLE, ABSOLUTE, SUPERMAJORITY) with abstention handling, and discloses
voters per option or, for private polls, as one anonymous list.

Every controller operation is a pure function over an immutable `Snapshot`
of the external stores (user directory, polls by identifier, ballots,
delegation pairs). An operation answers a `Result`: a value, or the error
status it raises (400, 401, 404, and 500 for a JavaScript `TypeError`). A
write is not performed but returned: a successful write request yields the
single `StoreCall` it hands to the store, whose boolean reply is the
request's answer; an error carries no call, so no failing request writes.

Modules:

- `Outcomes` (outcomes.dfy): `Failure`, `Result`, `Option`.
- `Domain` (domain.dfy): `User`, `Poll`, `PollOption`, `Vote`, `OptionCount`,
  `Results`, and `Payload`, the verdict of the shape validators on a raw body.
- `Stores` (stores.dfy): the snapshot, the store calls, the user lookup, and
  the vote store's contract of one ballot per (user, poll), last write wins.
- `Sorting` (sorting.dfy): `Array.prototype.sort` as a stable insertion sort
  over the comparator's sign, with the two comparators the tabulator uses.
- `Tally` (tally.dfy): `getNormalResults` and the lemmas about it.
- `PollController` (poll_controller.dfy) and `VoteController`
  (vote_controller.dfy): the controllers.

The model follows the code as written, including its quirks:

- The sort is in place, so the returned `votes` list is the sorted one
  (ascending by count for SIMPLE and ABSOLUTE).
- The SUPERMAJORITY comparator `a[1] - b[1]` reads missing indices and is
  NaN for every pair. Such a comparator leaves the order to the JavaScript
  engine; the model reads NaN as +0, as V8's stable sort does, so declared
  order is kept.
- ABSOLUTE and SUPERMAJORITY judge the first entry after the sort. For
  ABSOLUTE that is the surviving option with the fewest ballots, and among
  options tied for fewest the first in declared order, since the sort is
  stable.
- SIMPLE reads `votesSorted[0][0]`, an index of an object, so its winner is
  always `''`; with no surviving entry `votesSorted[0]` is `undefined`, the
  read throws, and the request fails with a server error.
- The denominator `nValidVotes` counts options (all of them, or the
  non-abstention ones), not ballots.
- `deleteVotesByPollId` refuses callers whom the admin oracle calls admin.

A write is related to later reads by applying its store call to the
snapshot (`Stores.ApplyToVotes`, `Stores.ApplyToPolls`) and asking again.

The poll controller imported by `VoteController` (under `packages/server`)
is not part of this model; the `src/controllers/PollController.ts` rule for
`getPoll` is taken as its contract.

## Model

| member | source | states |
|---|---|---|
| `Stores.FindUser` | src/controllers/PollController.ts:30 | The lookup succeeds exactly when some directory user has the id, returns such a user, and fails with 404 otherwise |
| `Stores.Lookup` | packages/server/src/controllers/VoteController.ts:57 | The stored ballot is present exactly when some ballot has that user and poll, and it is one of them |
| `Stores.FromPoll` | packages/server/src/controllers/VoteController.ts:120 | The ballots fetched for a poll are exactly the stored ballots of that poll, each as many times as it is stored |
| `Stores.Purge` | packages/server/src/controllers/VoteController.ts:75 | After the bulk deletion exactly the ballots of other polls remain, each as many times as it was stored |
| `Stores.UpsertReplaces` | packages/server/src/controllers/VoteController.ts:110 | After an upsert the key holds exactly the new ballot, once; every other key reads as before; one ballot per (user, poll) is kept |
| `Stores.PurgeEmptiesOnlyThatPoll` | packages/server/src/controllers/VoteController.ts:75 | After the bulk deletion the poll has no ballots and every other poll keeps its ballots in order |
| `Sorting.SortByCountIsStableAscending` | packages/server/src/controllers/VoteController.ts:143-144 | Sorting by `a.votes - b.votes` gives an ascending permutation in which entries of equal count keep their order |
| `Sorting.SortByIndexOneKeepsOrder` | packages/server/src/controllers/VoteController.ts:161-162 | Sorting with the NaN comparator `a[1] - b[1]` leaves the entries in declared order |
| `Sorting.Sort` | packages/server/src/controllers/VoteController.ts:143-144 | The insertion sort returns as many entries as it is given; what it returns is stated by the two lemmas above |
| `Tally.CountIsNumberOfBallots` | packages/server/src/controllers/VoteController.ts:125 | An option's count equals the number of ballot positions whose first choice is that option |
| `Tally.CountVotes` | packages/server/src/controllers/VoteController.ts:125 | A count never exceeds the number of ballots, and is zero exactly when no ballot names the option first |
| `Tally.TallyEntries` | packages/server/src/controllers/VoteController.ts:124-135 | Before sorting there is exactly one entry per option, in declared order, named after it |
| `Tally.TallyCountsBallots` | packages/server/src/controllers/VoteController.ts:124-135 | Entry i names option i and counts exactly the ballots naming option i first |
| `Tally.StrayBallotIgnored` | packages/server/src/controllers/VoteController.ts:125 | A ballot whose first choice names no option changes no count |
| `Tally.CountsAccountForEveryBallot` | packages/server/src/controllers/VoteController.ts:124-135 | With distinct option names the counts plus the stray ballots equal the number of ballots, so the counts never exceed it |
| `Tally.CasterIds` | packages/server/src/controllers/VoteController.ts:126 | The collected ids are exactly the ids on ballots naming the option first |
| `Tally.NamesOf` | packages/server/src/controllers/VoteController.ts:127-128 | The names are those of the directory users whose id was collected, no more names than directory users |
| `Tally.NamesKeepDirectoryOrder` | packages/server/src/controllers/VoteController.ts:127-128 | The selected names follow directory order: a split directory gives the two selections one after the other |
| `Tally.VoterLists` | packages/server/src/controllers/VoteController.ts:124-135 | One `[optionName, names]` pair per option, in declared order |
| `Tally.VoterListHoldsCasters` | packages/server/src/controllers/VoteController.ts:125-128 | An option's list holds exactly the names of directory users who cast that option |
| `Tally.FoldIsJoin` | packages/server/src/controllers/VoteController.ts:176-178 | The `reduce` with `concat` equals the lists joined in option order |
| `Tally.ConcatFold` | packages/server/src/controllers/VoteController.ts:176-178 | The fold keeps its seed as a prefix and adds exactly as many names as the lists hold |
| `Tally.JoinedContents` | packages/server/src/controllers/VoteController.ts:176-178 | The joined list has as many names as all lists together and holds exactly their names |
| `Tally.Disclose` | packages/server/src/controllers/VoteController.ts:172-181 | A public poll keeps the per-option lists; a private poll gives one `'Voters'` pair whose names are the lists joined in option order, so every name is kept and the total count preserved |
| `Tally.ValidOptionCount` | packages/server/src/controllers/VoteController.ts:136-138 | The denominator is the number of options, or of non-abstention options when abstention is not valid, and never exceeds the option count |
| `Tally.FirstNamed` | packages/server/src/controllers/VoteController.ts:146 | The `find` succeeds exactly when some option has the name and returns the first option with that name |
| `Tally.EntriesNameOptions` | packages/server/src/controllers/VoteController.ts:146-147 | Every tally entry is named after an option, so the filter's `find` never comes back empty |
| `Tally.Survivors` | packages/server/src/controllers/VoteController.ts:145-148 | The filter keeps exactly the entries whose option is not an abstention, or all when abstention is valid |
| `Tally.ValidAbstentionKeepsAll` | packages/server/src/controllers/VoteController.ts:145-148 | When abstention is valid the filter keeps every tally entry, in order |
| `Tally.SurvivorsAscending` | packages/server/src/controllers/VoteController.ts:151-156 | Filtering an ascending list leaves it ascending |
| `Tally.Winner` | packages/server/src/controllers/VoteController.ts:142-170 | SIMPLE yields `''` or throws when nothing survives; ABSOLUTE names the first entry iff twice its count exceeds the denominator; SUPERMAJORITY iff three times its count exceeds twice the denominator |
| `Tally.NormalResults` | packages/server/src/controllers/VoteController.ts:113-183 | Only SIMPLE can fail, with 500; `votes` is a permutation of the tally, ascending and keeping declared order among equal counts unless SUPERMAJORITY, declared order for SUPERMAJORITY; `voters` is the disclosure of the per-option lists |
| `Tally.NormalWinner` | packages/server/src/controllers/VoteController.ts:140-170 | The tally succeeds exactly when the winner rule does and its winner is that rule's verdict |
| `Tally.CandidatesExist` | packages/server/src/controllers/VoteController.ts:145-157 | Some entry survives the filter exactly when some option does, and then the denominator is at least one |
| `Tally.SortedIsPermutation` | packages/server/src/controllers/VoteController.ts:143-144 | Both sorts only reorder the tally entries |
| `Tally.DenominatorPositive` | packages/server/src/controllers/VoteController.ts:136-138 | When some option survives the denominator is at least one, so the division never meets a zero |
| `Tally.SimpleNeverNamesWinner` | packages/server/src/controllers/VoteController.ts:142-149 | SIMPLE succeeds exactly when some option survives the filter and then its winner is `''` |
| `Tally.FirstCandidateHasFewestVotes` | packages/server/src/controllers/VoteController.ts:150-156 | After the count sort the first surviving entry has the fewest ballots among all surviving options |
| `Tally.AbsoluteJudgesFewestVotes` | packages/server/src/controllers/VoteController.ts:150-159 | ABSOLUTE judges the first option, in declared order, among the surviving options with the fewest ballots: its name iff twice its count exceeds the denominator, else `''`; `''` when nothing survives |
| `Tally.AbsoluteCandidateIsFirstOfFewest` | packages/server/src/controllers/VoteController.ts:151-156 | After the stable count sort and the filter, the first entry is that of the first declared surviving option with the fewest ballots |
| `Tally.SurvivorsWithCount` | packages/server/src/controllers/VoteController.ts:145-148 | The abstention filter commutes with selecting the entries of one count |
| `Tally.SupermajorityJudgesFirstDeclared` | packages/server/src/controllers/VoteController.ts:160-169 | SUPERMAJORITY judges the first surviving option in declared order, named iff three times its count exceeds twice the denominator; `''` when nothing survives |
| `Tally.CountPermutation` | packages/server/src/controllers/VoteController.ts:125 | A count does not depend on the order of the ballots |
| `Tally.BallotOrderIrrelevant` | packages/server/src/controllers/VoteController.ts:120-135 | Any rearrangement of the fetched ballots gives the same results |
| `PollController.GetPolls` | src/controllers/PollController.ts:17-20 | Succeeds exactly for a known caller and queries with that caller's membership; 404 otherwise |
| `PollController.GetPoll` | src/controllers/PollController.ts:29-37 | Returns the stored poll iff the caller exists, the poll exists and the caller's membership includes its target group; 401 for a known non-member, 404 for a missing user or poll |
| `PollController.UpdateState` | src/controllers/PollController.ts:48-62 | Non-admin gets 401 whatever the body; admin with a malformed state gets 400; otherwise exactly the state write is issued |
| `PollController.AddPoll` | src/controllers/PollController.ts:72-84 | Non-admin gets 401 whatever the body; admin with a malformed poll gets 400; otherwise exactly the insertion is issued |
| `PollController.DeletePoll` | src/controllers/PollController.ts:93-102 | Non-admin gets 401 and nothing is deleted; an admin issues exactly the deletion |
| `VoteController.GetVote` | packages/server/src/controllers/VoteController.ts:37-60 | Fails 401 exactly when the poll is private, requester differs from target, and no delegation exists or the poll is not open; otherwise returns the stored ballot of the target, possibly absent |
| `VoteController.ResolvePoll` | packages/server/src/controllers/VoteController.ts:43-48 | A poll handed in is used as is; otherwise the stored poll is given exactly to a known user whose membership lists its target group, a known non-member gets 401, and the only failures are 404 and 401 |
| `VoteController.DeleteVotesByPollId` | packages/server/src/controllers/VoteController.ts:70-79 | As written: the deletion is issued exactly when the admin oracle answers false; admins get 401 |
| `VoteController.EffectiveVoter` | packages/server/src/controllers/VoteController.ts:96 | The voter of record is the delegated id when one is given and non-empty, and the requester otherwise |
| `VoteController.AddOrUpdateVote` | packages/server/src/controllers/VoteController.ts:91-111 | 400 for a malformed body; then 401 for a missing delegation, whatever the polls; then the voter's poll access error; then 401 when the poll is not open; on success the upsert of the body's poll and choices under the delegated id or the requester |
| `VoteController.SubmitThenReadOwnBallot` | packages/server/src/controllers/VoteController.ts:96-110 | A voter who casts a ballot and then reads their own ballot in that poll gets exactly the stored ballot back |
| `VoteController.DelegateReadsBallotCast` | packages/server/src/controllers/VoteController.ts:49-57 | A delegate who cast a ballot for a delegator and can open the poll reads that ballot back while the poll is open |
| `VoteController.GetResults` | packages/server/src/controllers/VoteController.ts:192-215 | 404 for a missing poll; 401 for an open poll; a hidden closed poll is 401 iff the caller is not admin; a visible closed poll is never 401; never 400; an authorised request succeeds exactly when the poll is a priority poll or its normal tally succeeds; a priority poll answers one empty, winnerless result; otherwise a one-element list from the normal tally |
| `VoteController.PriorityResults` | packages/server/src/controllers/VoteController.ts:184-190 | One result with no counts, no voters and no winner, whatever the poll |
| `VoteController.ClosedVisibleNormalResults` | packages/server/src/controllers/VoteController.ts:197-214 | For a visible closed non-priority, non-SIMPLE poll any caller gets the one-element normal tally |
| `VoteController.AbsoluteExampleHasNoWinner` | packages/server/src/controllers/VoteController.ts:150-159 | ABSOLUTE with three ballots for A and one for B over two options returns counts reordered as B, A and no winner |
| `VoteController.ClosingStopsVoting` | src/controllers/PollController.ts:48-62 | After an admin's write of a state other than open, every ballot for the poll is refused, and one that passed the access checks before is refused with 401 |
| `VoteController.PublishingOpensResults` | src/controllers/PollController.ts:48-62 | After an admin's write of the visible closed state, the results are refused to no caller: the only failure left is 500, and a priority poll or a non-SIMPLE tally always succeeds |
| `VoteController.DeletedPollHasNoResults` | src/controllers/PollController.ts:93-102 | After an admin's poll deletion, its results are 404 and every other poll's results are unchanged |
| `VoteController.ClearedPollKeepsOtherPolls` | packages/server/src/controllers/VoteController.ts:70-79 | After the bulk deletion the poll has no ballots, and every other poll keeps its ballots in order and its results |
| `PollController.AddedPollVisibleToItsGroup` | src/controllers/PollController.ts:72-84 | After an admin's insertion under a fresh id, the poll is returned to known members of its target group and refused with 401 to other known users; stored polls read as before |
| `PollController.DeletedPollNotFound` | src/controllers/PollController.ts:93-102 | After an admin's deletion the poll is 404 for everyone and every other poll reads as before |

## Left out

- HTTP routing, `async`/`await` and promises are not modelled; every operation is one synchronous decision.
- Error message strings are left out; only the status is kept.
- Store internals are left out: the filtering done by `PollModel.getAll`, the poll store's internals and the booleans the stores reply. A write is modelled as the call issued.
- Store failures are left out. The `try`/`catch` in `deleteVotesByPollId` could not catch the un-awaited rejection anyway.
- `new ObjectId(id)` throwing on a malformed identifier is left out; identifiers are plain strings.
- The DTO validators (`validatorGeneric`, `isIPoll`, `isIPollState`) are opaque: a body arrives as `Payload`, either `Wellformed(value)` or `Malformed`.
- `UserController.isAdmin` is not part of this model: its answer is the parameter `callerIsAdmin`. At VoteController.ts:71 it is called without `await`. If it is asynchronous, the Promise is always truthy and every call is refused; that case is `callerIsAdmin == true`.
- `UserController.getUser`, `PollModel.get` inside `getPoll` and `DelegationController.check` are not part of this model. A missing user or poll is assumed to raise 404, and a delegation is a stored pair. Another reading is possible. `getResults` (VoteController.ts:193-196) tests the reply of `PollModel.get` for falsiness, which suggests the store answers a falsy value for a missing poll. Then `poll.targetGroup` at PollController.ts:32 would throw a `TypeError`, and a missing poll in `getPoll` would be a 500, not a 404.
- The floating-point division of the threshold tests is replaced by integer cross-multiplication (`2*count > n`, `3*count > 2*n`). Both rounding effects are negligible for counts far below 2^50, and a zero denominator behaves as IEEE does.
- The front-end API client is plain HTTP plumbing and is not modelled. The vote-controller test file holds only a skipped placeholder.
- `Tally.SurvivesName` treats an entry whose name matches no option as surviving. In the source `found.isAbstention` would throw there. `Tally.EntriesNameOptions` proves that case never arises.
- `Sorting.SortByIndexOneKeepsOrder`: an always-NaN comparator is not a consistent comparator in ECMAScript, so the language leaves the order to the engine. The lemma assumes the engine reads NaN as +0 and sorts stably, as V8 does.
- The poll store's writes are modelled by `Stores.ApplyToPolls`: a state write to a missing poll changes nothing, and an insertion is stored under an identifier given as a parameter. `PollModel` is not part of this model.
- `Tally.NamesOf`: directory order is stated through `Tally.NamesKeepDirectoryOrder`, not as an explicit subsequence relation.
