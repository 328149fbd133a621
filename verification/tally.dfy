/** The result tabulator of `VoteController.getNormalResults`: per-option
    counts, the valid-vote denominator, the sort and abstention filter, the
    approval-ratio winner test, and the voter lists with their private
    collapse. */
module Tally {
  import opened Domain
  import opened Outcomes
  import opened Sorting

  // ---------------------------------------------------------------------
  // Counting

  /** `vote.option[0] === name`; an empty choice list reads `undefined`,
      which equals no option name. */
  predicate ChoosesFirst(v: Vote, name: string)
  {
    |v.option| > 0 && v.option[0] == name
  }

  /** `votesFound.filter((vote) => vote.option[0] === name).length` */
  function CountVotes(ballots: seq<Vote>, name: string): (n: nat)
    ensures n <= |ballots|
    ensures n == 0 <==> forall i :: 0 <= i < |ballots| ==> !ChoosesFirst(ballots[i], name)
  {
    if |ballots| == 0 then 0
    else (if ChoosesFirst(ballots[0], name) then 1 else 0) + CountVotes(ballots[1..], name)
  }

  /** Positions of the ballots whose first choice is `name`. */
  ghost function BallotsFor(ballots: seq<Vote>, name: string): set<int>
  {
    set i | 0 <= i < |ballots| && ChoosesFirst(ballots[i], name)
  }

  lemma {:induction false} CountAppend(a: seq<Vote>, b: seq<Vote>, name: string)
    ensures CountVotes(a + b, name) == CountVotes(a, name) + CountVotes(b, name)
  {
    if |a| > 0 {
      assert (a + b)[1..] == a[1..] + b;
      CountAppend(a[1..], b, name);
    } else {
      assert a + b == b;
    }
  }

  /** Appending one ballot adds its position when it names the option first. */
  lemma BallotsForSnocSet(init: seq<Vote>, last: Vote, name: string)
    ensures BallotsFor(init + [last], name)
            == BallotsFor(init, name) + (if ChoosesFirst(last, name) then {|init|} else {})
  {
    var ballots := init + [last];
    forall i | 0 <= i < |init| ensures ballots[i] == init[i] {
    }
  }

  lemma BallotsForSnoc(init: seq<Vote>, last: Vote, name: string)
    ensures |BallotsFor(init + [last], name)|
            == |BallotsFor(init, name)| + (if ChoosesFirst(last, name) then 1 else 0)
  {
    BallotsForSnocSet(init, last, name);
    assert |init| !in BallotsFor(init, name);
  }

  /** A count is exactly the number of ballots naming the option first. */
  lemma {:induction false} CountIsNumberOfBallots(ballots: seq<Vote>, name: string)
    ensures CountVotes(ballots, name) == |BallotsFor(ballots, name)|
  {
    if |ballots| > 0 {
      var init := ballots[..|ballots| - 1];
      var last := ballots[|ballots| - 1];
      assert ballots == init + [last];
      assert [last][1..] == [];
      CountAppend(init, [last], name);
      CountIsNumberOfBallots(init, name);
      BallotsForSnoc(init, last, name);
    } else {
      assert BallotsFor(ballots, name) == {};
    }
  }

  /** The `votes` array as the loop over `options` builds it, before any
      sort: one entry per option, in declared order. */
  function TallyEntries(options: seq<PollOption>, ballots: seq<Vote>): (r: seq<OptionCount>)
    ensures |r| == |options|
    ensures forall i :: 0 <= i < |options| ==>
      r[i] == OptionCount(options[i].name, CountVotes(ballots, options[i].name))
  {
    if |options| == 0 then []
    else [OptionCount(options[0].name, CountVotes(ballots, options[0].name))]
         + TallyEntries(options[1..], ballots)
  }

  /** Each entry of the unsorted tally names its option and counts exactly
      the ballots whose first choice is that option. */
  lemma TallyCountsBallots(options: seq<PollOption>, ballots: seq<Vote>, i: int)
    requires 0 <= i < |options|
    ensures TallyEntries(options, ballots)[i].option == options[i].name
    ensures TallyEntries(options, ballots)[i].votes == |BallotsFor(ballots, options[i].name)|
  {
    CountIsNumberOfBallots(ballots, options[i].name);
  }

  /** A ballot whose first choice names no option is counted nowhere. */
  lemma StrayBallotIgnored(options: seq<PollOption>, ballots: seq<Vote>, v: Vote)
    requires !NamesAnOption(options, v)
    ensures TallyEntries(options, ballots + [v]) == TallyEntries(options, ballots)
  {
    forall i | 0 <= i < |options|
      ensures CountVotes(ballots + [v], options[i].name) == CountVotes(ballots, options[i].name)
    {
      CountAppend(ballots, [v], options[i].name);
      assert [v][1..] == [];
      assert options[i] in options;
    }
  }

  ghost predicate DistinctNames(options: seq<PollOption>)
  {
    forall i, j :: 0 <= i < j < |options| ==> options[i].name != options[j].name
  }

  predicate NamesAnOption(options: seq<PollOption>, v: Vote)
  {
    exists o :: o in options && ChoosesFirst(v, o.name)
  }

  /** Number of ballots whose first choice names no option. */
  function StrayBallots(options: seq<PollOption>, ballots: seq<Vote>): nat
  {
    if |ballots| == 0 then 0
    else (if NamesAnOption(options, ballots[0]) then 0 else 1) + StrayBallots(options, ballots[1..])
  }

  function TotalVotes(entries: seq<OptionCount>): nat
  {
    if |entries| == 0 then 0 else entries[0].votes + TotalVotes(entries[1..])
  }

  /** Number of options a single ballot is counted for. */
  function Hits(options: seq<PollOption>, v: Vote): nat
  {
    if |options| == 0 then 0
    else (if ChoosesFirst(v, options[0].name) then 1 else 0) + Hits(options[1..], v)
  }

  lemma {:induction false} TotalPeelsBallot(options: seq<PollOption>, ballots: seq<Vote>)
    requires |ballots| > 0
    ensures TotalVotes(TallyEntries(options, ballots))
            == Hits(options, ballots[0]) + TotalVotes(TallyEntries(options, ballots[1..]))
  {
    if |options| > 0 {
      TotalPeelsBallot(options[1..], ballots);
      var t := TallyEntries(options, ballots);
      assert t[1..] == TallyEntries(options[1..], ballots);
      var u := TallyEntries(options, ballots[1..]);
      assert u[1..] == TallyEntries(options[1..], ballots[1..]);
    }
  }

  lemma {:induction false} HitsOfDistinctNames(options: seq<PollOption>, v: Vote)
    requires DistinctNames(options)
    ensures Hits(options, v) == if NamesAnOption(options, v) then 1 else 0
  {
    if |options| > 0 {
      var rest := options[1..];
      assert DistinctNames(rest) by {
        forall i, j | 0 <= i < j < |rest| ensures rest[i].name != rest[j].name {
          assert rest[i] == options[i + 1] && rest[j] == options[j + 1];
        }
      }
      HitsOfDistinctNames(rest, v);
      assert options == [options[0]] + rest;
      if ChoosesFirst(v, options[0].name) {
        forall o | o in rest ensures !ChoosesFirst(v, o.name) {
          var m :| 0 <= m < |rest| && rest[m] == o;
          assert options[m + 1] == o;
        }
      } else {
        assert NamesAnOption(options, v) == NamesAnOption(rest, v);
      }
    }
  }

  /** With distinct option names, every ballot is counted once or is a
      stray: the counts sum to the number of ballots minus the strays, and
      so never exceed the number of ballots. */
  lemma {:induction false} CountsAccountForEveryBallot(options: seq<PollOption>, ballots: seq<Vote>)
    requires DistinctNames(options)
    ensures TotalVotes(TallyEntries(options, ballots)) + StrayBallots(options, ballots) == |ballots|
    ensures TotalVotes(TallyEntries(options, ballots)) <= |ballots|
  {
    if |ballots| == 0 {
      ZeroTally(options, ballots);
    } else {
      TotalPeelsBallot(options, ballots);
      HitsOfDistinctNames(options, ballots[0]);
      CountsAccountForEveryBallot(options, ballots[1..]);
    }
  }

  lemma {:induction false} ZeroTally(options: seq<PollOption>, ballots: seq<Vote>)
    requires |ballots| == 0
    ensures TotalVotes(TallyEntries(options, ballots)) == 0
  {
    if |options| > 0 {
      ZeroTally(options[1..], ballots);
      var t := TallyEntries(options, ballots);
      assert t[1..] == TallyEntries(options[1..], ballots);
    }
  }

  // ---------------------------------------------------------------------
  // Voter lists

  /** `votesOption.map((opt) => opt.userId)` */
  function CasterIds(ballots: seq<Vote>, name: string): (r: seq<UserId>)
    ensures forall id :: id in r <==> exists v :: v in ballots && v.userId == id && ChoosesFirst(v, name)
  {
    if |ballots| == 0 then []
    else
      var rest := CasterIds(ballots[1..], name);
      assert forall v :: v in ballots ==> v == ballots[0] || v in ballots[1..];
      if ChoosesFirst(ballots[0], name) then [ballots[0].userId] + rest else rest
  }

  /** `users.filter((user) => ids.includes(user.userId)).map((user) => user.name)` */
  function NamesOf(users: seq<User>, ids: seq<UserId>): (r: seq<string>)
    ensures |r| <= |users|
    ensures forall u :: u in users && u.userId in ids ==> u.name in r
    ensures forall x :: x in r ==> exists u :: u in users && u.userId in ids && u.name == x
  {
    if |users| == 0 then []
    else
      var rest := NamesOf(users[1..], ids);
      assert forall u :: u in users ==> u == users[0] || u in users[1..];
      if users[0].userId in ids then [users[0].name] + rest else rest
  }

  /** The names keep directory order: selecting from two directory halves
      gives the two selections one after the other. */
  lemma {:induction false} NamesKeepDirectoryOrder(a: seq<User>, b: seq<User>, ids: seq<UserId>)
    ensures NamesOf(a + b, ids) == NamesOf(a, ids) + NamesOf(b, ids)
  {
    if |a| > 0 {
      assert (a + b)[1..] == a[1..] + b;
      NamesKeepDirectoryOrder(a[1..], b, ids);
    } else {
      assert a + b == b;
    }
  }

  /** The user `userId` cast a ballot whose first choice is `name`. */
  predicate Cast(ballots: seq<Vote>, userId: UserId, name: string)
  {
    exists v :: v in ballots && v.userId == userId && ChoosesFirst(v, name)
  }

  /** The `voters` array as the loop over `options` builds it. */
  function VoterLists(options: seq<PollOption>, ballots: seq<Vote>, users: seq<User>): (r: seq<(string, seq<string>)>)
    ensures |r| == |options|
    ensures forall i :: 0 <= i < |options| ==>
      r[i] == (options[i].name, NamesOf(users, CasterIds(ballots, options[i].name)))
  {
    if |options| == 0 then []
    else [(options[0].name, NamesOf(users, CasterIds(ballots, options[0].name)))]
         + VoterLists(options[1..], ballots, users)
  }

  /** An option's voter list holds exactly the names of the directory users
      who cast that option, and no more names than the directory has. */
  lemma VoterListHoldsCasters(options: seq<PollOption>, ballots: seq<Vote>, users: seq<User>, i: int)
    requires 0 <= i < |options|
    ensures VoterLists(options, ballots, users)[i].0 == options[i].name
    ensures |VoterLists(options, ballots, users)[i].1| <= |users|
    ensures forall x :: x in VoterLists(options, ballots, users)[i].1 <==>
      exists u :: u in users && u.name == x && Cast(ballots, u.userId, options[i].name)
  {
  }

  /** `voters.reduce((acc, curr) => acc.concat(curr[1]), acc)`, a left fold. */
  function ConcatFold(acc: seq<string>, lists: seq<(string, seq<string>)>): (r: seq<string>)
    ensures |r| == |acc| + NameCount(lists)
    ensures r[..|acc|] == acc
    decreases |lists|
  {
    if |lists| == 0 then acc else ConcatFold(acc + lists[0].1, lists[1..])
  }

  /** Every list's names, list after list. */
  function Joined(lists: seq<(string, seq<string>)>): seq<string>
  {
    if |lists| == 0 then [] else lists[0].1 + Joined(lists[1..])
  }

  function NameCount(lists: seq<(string, seq<string>)>): nat
  {
    if |lists| == 0 then 0 else |lists[0].1| + NameCount(lists[1..])
  }

  lemma {:induction false} FoldIsJoin(acc: seq<string>, lists: seq<(string, seq<string>)>)
    ensures ConcatFold(acc, lists) == acc + Joined(lists)
    decreases |lists|
  {
    if |lists| > 0 {
      FoldIsJoin(acc + lists[0].1, lists[1..]);
      assert (acc + lists[0].1) + Joined(lists[1..]) == acc + (lists[0].1 + Joined(lists[1..]));
    }
  }

  lemma {:induction false} JoinedLength(lists: seq<(string, seq<string>)>)
    ensures |Joined(lists)| == NameCount(lists)
  {
    if |lists| > 0 {
      JoinedLength(lists[1..]);
    }
  }

  /** A name of the joined list comes from some list. */
  lemma {:induction false} JoinedFromSomeList(lists: seq<(string, seq<string>)>, x: string) returns (i: int)
    requires x in Joined(lists)
    ensures 0 <= i < |lists| && x in lists[i].1
  {
    if x in lists[0].1 {
      i := 0;
    } else {
      var j := JoinedFromSomeList(lists[1..], x);
      i := j + 1;
    }
  }

  /** Every name of every list reaches the joined list. */
  lemma {:induction false} JoinedHoldsEveryList(lists: seq<(string, seq<string>)>, i: int, x: string)
    requires 0 <= i < |lists| && x in lists[i].1
    ensures x in Joined(lists)
  {
    if i > 0 {
      JoinedHoldsEveryList(lists[1..], i - 1, x);
    }
  }

  lemma JoinedContents(lists: seq<(string, seq<string>)>)
    ensures |Joined(lists)| == NameCount(lists)
    ensures forall x :: x in Joined(lists) <==> exists i :: 0 <= i < |lists| && x in lists[i].1
  {
    JoinedLength(lists);
    forall x | x in Joined(lists) ensures exists i :: 0 <= i < |lists| && x in lists[i].1 {
      var i := JoinedFromSomeList(lists, x);
    }
    forall x, i | 0 <= i < |lists| && x in lists[i].1 ensures x in Joined(lists) {
      JoinedHoldsEveryList(lists, i, x);
    }
  }

  /** The voters disclosed: a private poll collapses all lists into a
      single `'Voters'` list holding every name of every list, in option
      order; a public poll keeps the per-option lists. */
  function Disclose(isPrivate: bool, lists: seq<(string, seq<string>)>): (r: seq<(string, seq<string>)>)
    ensures !isPrivate ==> r == lists
    ensures isPrivate ==> |r| == 1 && r[0].0 == "Voters"
    ensures isPrivate ==> r[0].1 == Joined(lists)
    ensures isPrivate ==> |r[0].1| == NameCount(lists)
    ensures isPrivate ==> forall x :: x in r[0].1 <==> exists i :: 0 <= i < |lists| && x in lists[i].1
  {
    if isPrivate then
      FoldIsJoin([], lists);
      JoinedContents(lists);
      assert [] + Joined(lists) == Joined(lists);
      [("Voters", ConcatFold([], lists))]
    else lists
  }

  // ---------------------------------------------------------------------
  // Denominator

  /** `options.filter((opt) => opt.isAbstention).length` */
  function AbstentionCount(options: seq<PollOption>): nat
  {
    if |options| == 0 then 0
    else (if options[0].isAbstention then 1 else 0) + AbstentionCount(options[1..])
  }

  /** Positions of the options that are not abstentions. */
  ghost function SubstantiveOptions(options: seq<PollOption>): set<int>
  {
    set i | 0 <= i < |options| && !options[i].isAbstention
  }

  lemma {:induction false} AbstentionsComplement(options: seq<PollOption>)
    ensures AbstentionCount(options) + |SubstantiveOptions(options)| == |options|
  {
    if |options| > 0 {
      var init := options[..|options| - 1];
      var last := options[|options| - 1];
      AbstentionSuffix(init, last);
      AbstentionsComplement(init);
      assert options == init + [last];
      var extra: set<int> := if last.isAbstention then {} else {|init|};
      assert SubstantiveOptions(options) == SubstantiveOptions(init) + extra;
      assert |init| !in SubstantiveOptions(init);
    } else {
      assert SubstantiveOptions(options) == {};
    }
  }

  lemma {:induction false} AbstentionSuffix(init: seq<PollOption>, last: PollOption)
    ensures AbstentionCount(init + [last]) == AbstentionCount(init) + (if last.isAbstention then 1 else 0)
  {
    if |init| > 0 {
      assert (init + [last])[1..] == init[1..] + [last];
      AbstentionSuffix(init[1..], last);
    } else {
      assert init + [last] == [last];
    }
  }

  /** `nValidVotes`: the number of tally entries (one per option), less the abstention
      options unless abstentions are valid. It counts options, not
      ballots: all of them, or only the non-abstention ones. */
  function ValidOptionCount(options: seq<PollOption>, abstentionIsValid: bool): (n: nat)
    ensures n <= |options|
    ensures abstentionIsValid ==> n == |options|
    ensures !abstentionIsValid ==> n == |SubstantiveOptions(options)|
  {
    AbstentionsComplement(options);
    |options| - (if abstentionIsValid then 0 else AbstentionCount(options))
  }

  // ---------------------------------------------------------------------
  // Abstention filter

  /** `options.find((opt) => opt.name === name)` */
  function FirstNamed(options: seq<PollOption>, name: string): (r: Option<PollOption>)
    ensures r.Some? <==> exists o :: o in options && o.name == name
    ensures r.Some? ==> r.value in options && r.value.name == name
    ensures r.Some? ==> exists i :: 0 <= i < |options| && options[i] == r.value && FirstWithName(options, name, i)
  {
    if |options| == 0 then None
    else if options[0].name == name then
      assert FirstWithName(options, name, 0);
      Some(options[0])
    else
      var r := FirstNamed(options[1..], name);
      assert forall o :: o in options && o.name == name ==> o in options[1..];
      FirstWithNameShift(options, name);
      r
  }

  /** Position `i` holds the first option called `name`. */
  ghost predicate FirstWithName(options: seq<PollOption>, name: string, i: int)
  {
    0 <= i < |options| && options[i].name == name && forall j :: 0 <= j < i ==> options[j].name != name
  }

  lemma FirstWithNameShift(options: seq<PollOption>, name: string)
    requires |options| > 0 && options[0].name != name
    ensures forall i :: FirstWithName(options[1..], name, i) ==> FirstWithName(options, name, i + 1)
  {
    forall i | FirstWithName(options[1..], name, i) ensures FirstWithName(options, name, i + 1) {
      forall j | 0 <= j < i + 1 ensures options[j].name != name {
        if j > 0 {
          assert options[j] == options[1..][j - 1];
        }
      }
    }
  }

  /** `abstentionIsValid || !found.isAbstention`. Every tally entry is
      named after an option, so `found` is always defined there. */
  predicate SurvivesName(options: seq<PollOption>, abstentionIsValid: bool, name: string)
  {
    abstentionIsValid
    || match FirstNamed(options, name)
       case Some(o) => !o.isAbstention
       case None => true
  }

  /** The `.filter(...)` after the sort. */
  function Survivors(options: seq<PollOption>, abstentionIsValid: bool, entries: seq<OptionCount>): (r: seq<OptionCount>)
    ensures |r| <= |entries|
    ensures forall e :: e in r <==> e in entries && SurvivesName(options, abstentionIsValid, e.option)
  {
    if |entries| == 0 then []
    else
      var rest := Survivors(options, abstentionIsValid, entries[1..]);
      assert forall e :: e in entries ==> e == entries[0] || e in entries[1..];
      if SurvivesName(options, abstentionIsValid, entries[0].option) then [entries[0]] + rest else rest
  }

  /** When abstention is valid the filter keeps every entry, in order. */
  lemma {:induction false} ValidAbstentionKeepsAll(options: seq<PollOption>, entries: seq<OptionCount>)
    ensures Survivors(options, true, entries) == entries
  {
    if |entries| > 0 {
      ValidAbstentionKeepsAll(options, entries[1..]);
      assert entries == [entries[0]] + entries[1..];
    }
  }

  lemma AscendingTail(s: seq<OptionCount>)
    requires Ascending(s) && |s| > 0
    ensures Ascending(s[1..])
    ensures forall e :: e in s[1..] ==> s[0].votes <= e.votes
  {
    forall i, j | 0 <= i < j < |s[1..]| ensures s[1..][i].votes <= s[1..][j].votes {
      assert s[1..][i] == s[i + 1] && s[1..][j] == s[j + 1];
    }
  }

  lemma {:induction false} SurvivorsAscending(options: seq<PollOption>, abstentionIsValid: bool, entries: seq<OptionCount>)
    requires Ascending(entries)
    ensures Ascending(Survivors(options, abstentionIsValid, entries))
  {
    if |entries| > 0 {
      AscendingTail(entries);
      SurvivorsAscending(options, abstentionIsValid, entries[1..]);
      if SurvivesName(options, abstentionIsValid, entries[0].option) {
        var rest := Survivors(options, abstentionIsValid, entries[1..]);
        forall j | 0 <= j < |rest| ensures entries[0].votes <= rest[j].votes {
          assert rest[j] in rest;
        }
        ConsAscending(entries[0], rest);
      }
    }
  }

  // ---------------------------------------------------------------------
  // Winner

  /** `count / n > num / den` in IEEE double arithmetic, with n a count of
      options: a positive count over zero is +Infinity and passes, zero over
      zero is NaN and fails. For counts far below 2^50 the rounding of the
      division and of `2 / 3` does not change the comparison. */
  predicate ShareExceeds(count: nat, n: nat, num: nat, den: nat)
  {
    if n == 0 then count > 0 else den * count > num * n
  }

  /** The winner assignment of the three `approvalRatio` branches, given the
      filtered, sorted entries. SIMPLE reads `votesSorted[0][0]`, an index
      of an object, which is `undefined`, so it yields `''`; on an empty
      array `votesSorted[0]` is itself `undefined` and the read throws. */
  function Winner(ratio: ApprovalRatio, candidates: seq<OptionCount>, nValid: nat): (r: Result<string>)
    ensures ratio == Simple ==> (r.Ok? <==> |candidates| > 0)
    ensures ratio == Simple && r.Ok? ==> r.value == ""
    ensures r.Err? ==> r.error == ServerError
    ensures ratio != Simple && |candidates| == 0 ==> r == Ok("")
    ensures ratio == Absolute && |candidates| > 0 ==>
      r == Ok(if 2 * candidates[0].votes > nValid then candidates[0].option else "")
    ensures ratio == Supermajority && |candidates| > 0 ==>
      r == Ok(if 3 * candidates[0].votes > 2 * nValid then candidates[0].option else "")
  {
    match ratio
    case Simple =>
      if |candidates| == 0 then Err(ServerError) else Ok("")
    case Absolute =>
      Ok(if |candidates| > 0 && ShareExceeds(candidates[0].votes, nValid, 1, 2) then candidates[0].option else "")
    case Supermajority =>
      Ok(if |candidates| > 0 && ShareExceeds(candidates[0].votes, nValid, 2, 3) then candidates[0].option else "")
  }

  // ---------------------------------------------------------------------
  // The normal tally

  /** SIMPLE and ABSOLUTE sort by `a.votes - b.votes`; the remaining branch
      sorts by `a[1] - b[1]`. */
  function ComparatorFor(ratio: ApprovalRatio): Comparator
  {
    if ratio == Supermajority then IndexOneDifference else CountDifference
  }

  /** The `votes` array after the in-place sort; it is what is returned. */
  function SortedTally(options: seq<PollOption>, ratio: ApprovalRatio, ballots: seq<Vote>): seq<OptionCount>
  {
    Sort(ComparatorFor(ratio), TallyEntries(options, ballots))
  }

  /** `votesSorted`: the sorted entries that pass the abstention filter. */
  function Candidates(options: seq<PollOption>, ratio: ApprovalRatio, abstentionIsValid: bool, ballots: seq<Vote>): seq<OptionCount>
  {
    Survivors(options, abstentionIsValid, SortedTally(options, ratio, ballots))
  }

  /** `getNormalResults` over the ballots of the poll and the directory. */
  function NormalResults(
    options: seq<PollOption>, isPrivate: bool, ratio: ApprovalRatio, abstentionIsValid: bool,
    ballots: seq<Vote>, users: seq<User>): (r: Result<Results>)
    ensures r.Err? ==> r.error == ServerError && ratio == Simple
    ensures ratio != Simple ==> r.Ok?
    ensures r.Ok? ==> multiset(r.value.votes) == multiset(TallyEntries(options, ballots))
    ensures r.Ok? && ratio != Supermajority ==> Ascending(r.value.votes)
    ensures r.Ok? && ratio != Supermajority ==>
      forall k :: WithCount(r.value.votes, k) == WithCount(TallyEntries(options, ballots), k)
    ensures r.Ok? && ratio == Supermajority ==> r.value.votes == TallyEntries(options, ballots)
    ensures r.Ok? ==> r.value.voters == Disclose(isPrivate, VoterLists(options, ballots, users))
  {
    var entries := TallyEntries(options, ballots);
    SortByCountIsStableAscending(entries);
    SortByIndexOneKeepsOrder(entries);
    var votes := SortedTally(options, ratio, ballots);
    var voters := Disclose(isPrivate, VoterLists(options, ballots, users));
    var nValid := ValidOptionCount(options, abstentionIsValid);
    var winner :- Winner(ratio, Candidates(options, ratio, abstentionIsValid, ballots), nValid);
    Ok(Results(votes, voters, winner))
  }

  /** The winner field is the approval-ratio test applied to the filtered,
      sorted entries and the option-count denominator. */
  lemma NormalWinner(
    options: seq<PollOption>, isPrivate: bool, ratio: ApprovalRatio, abstentionIsValid: bool,
    ballots: seq<Vote>, users: seq<User>)
    ensures var w := Winner(ratio, Candidates(options, ratio, abstentionIsValid, ballots), ValidOptionCount(options, abstentionIsValid));
      && (NormalResults(options, isPrivate, ratio, abstentionIsValid, ballots, users).Ok? <==> w.Ok?)
      && (w.Ok? ==> NormalResults(options, isPrivate, ratio, abstentionIsValid, ballots, users).value.winner == w.value)
  {
  }

  /** Every tally entry is named after an option, so the `find` of the
      abstention filter always finds one. */
  lemma EntriesNameOptions(options: seq<PollOption>, ballots: seq<Vote>)
    ensures forall e :: e in TallyEntries(options, ballots) ==> FirstNamed(options, e.option).Some?
  {
    forall e | e in TallyEntries(options, ballots) ensures FirstNamed(options, e.option).Some? {
      var i :| 0 <= i < |options| && TallyEntries(options, ballots)[i] == e;
      assert options[i] in options;
    }
  }

  /** Taking the first element of `a` out of `b`, where it sits at `k`,
      leaves two sequences with equal multisets. */
  lemma RemoveOne(a: seq<Vote>, b: seq<Vote>, k: int)
    requires multiset(a) == multiset(b) && |a| > 0
    requires 0 <= k < |b| && b[k] == a[0]
    ensures b == b[..k] + ([a[0]] + b[k + 1..])
    ensures multiset(a[1..]) == multiset(b[..k] + b[k + 1..])
  {
    var x, front, back := a[0], b[..k], b[k + 1..];
    assert b == front + ([x] + back);
    assert a == [x] + a[1..];
    assert multiset(a) == multiset{x} + multiset(a[1..]);
    assert multiset(b) == multiset(front) + multiset{x} + multiset(back);
    assert multiset(front + back) == multiset(front) + multiset(back);
    assert multiset(a[1..]) == multiset(a) - multiset{x};
  }

  lemma {:induction false} CountPermutation(a: seq<Vote>, b: seq<Vote>, name: string)
    requires multiset(a) == multiset(b)
    ensures CountVotes(a, name) == CountVotes(b, name)
    decreases |a|
  {
    if |a| == 0 {
      assert |b| == |multiset(b)|;
    } else {
      var x := a[0];
      assert x in multiset(b);
      var k :| 0 <= k < |b| && b[k] == x;
      var front, back := b[..k], b[k + 1..];
      RemoveOne(a, b, k);
      CountPermutation(a[1..], front + back, name);
      assert [x][1..] == [];
      CountAppend(front, [x] + back, name);
      CountAppend([x], back, name);
      CountAppend(front, back, name);
    }
  }

  lemma {:induction false} NamesOfSameIds(users: seq<User>, ids1: seq<UserId>, ids2: seq<UserId>)
    requires forall id :: id in ids1 <==> id in ids2
    ensures NamesOf(users, ids1) == NamesOf(users, ids2)
  {
    if |users| > 0 {
      NamesOfSameIds(users[1..], ids1, ids2);
    }
  }

  /** The order in which the vote store returns a poll's ballots does not
      matter: any rearrangement gives the same results. */
  lemma BallotOrderIrrelevant(
    options: seq<PollOption>, isPrivate: bool, ratio: ApprovalRatio, abstentionIsValid: bool,
    a: seq<Vote>, b: seq<Vote>, users: seq<User>)
    requires multiset(a) == multiset(b)
    ensures NormalResults(options, isPrivate, ratio, abstentionIsValid, a, users)
            == NormalResults(options, isPrivate, ratio, abstentionIsValid, b, users)
  {
    forall i | 0 <= i < |options|
      ensures CountVotes(a, options[i].name) == CountVotes(b, options[i].name)
      ensures NamesOf(users, CasterIds(a, options[i].name)) == NamesOf(users, CasterIds(b, options[i].name))
    {
      CountPermutation(a, b, options[i].name);
      forall v ensures v in a <==> v in b {
        assert v in a <==> v in multiset(a);
      }
      NamesOfSameIds(users, CasterIds(a, options[i].name), CasterIds(b, options[i].name));
    }
    assert TallyEntries(options, a) == TallyEntries(options, b);
    assert VoterLists(options, a, users) == VoterLists(options, b, users);
  }

  /** Some option passes the abstention filter. */
  predicate SomeOptionSurvives(options: seq<PollOption>, abstentionIsValid: bool)
  {
    exists i :: 0 <= i < |options| && SurvivesName(options, abstentionIsValid, options[i].name)
  }

  /** The filtered entries are the surviving options' entries: there are
      some exactly when some option survives, and then the denominator is
      at least one, so the division never meets a zero. */
  lemma CandidatesExist(options: seq<PollOption>, ratio: ApprovalRatio, abstentionIsValid: bool, ballots: seq<Vote>)
    ensures |Candidates(options, ratio, abstentionIsValid, ballots)| > 0 <==> SomeOptionSurvives(options, abstentionIsValid)
    ensures SomeOptionSurvives(options, abstentionIsValid) ==> ValidOptionCount(options, abstentionIsValid) >= 1
  {
    var entries := TallyEntries(options, ballots);
    var cands := Candidates(options, ratio, abstentionIsValid, ballots);
    SortedIsPermutation(options, ratio, ballots);
    DenominatorPositive(options, abstentionIsValid);
    if |cands| > 0 {
      assert cands[0] in cands;
      assert cands[0] in multiset(entries);
      var i :| 0 <= i < |entries| && entries[i] == cands[0];
      assert SurvivesName(options, abstentionIsValid, options[i].name);
    }
    if SomeOptionSurvives(options, abstentionIsValid) {
      var i :| 0 <= i < |options| && SurvivesName(options, abstentionIsValid, options[i].name);
      assert entries[i] in multiset(SortedTally(options, ratio, ballots));
      assert entries[i] in cands;
    }
  }

  /** The sort only reorders the tally entries. */
  lemma SortedIsPermutation(options: seq<PollOption>, ratio: ApprovalRatio, ballots: seq<Vote>)
    ensures multiset(SortedTally(options, ratio, ballots)) == multiset(TallyEntries(options, ballots))
  {
    SortByCountIsStableAscending(TallyEntries(options, ballots));
    SortByIndexOneKeepsOrder(TallyEntries(options, ballots));
  }

  /** When some option passes the filter the denominator is at least one,
      so the division of the threshold test never meets a zero. */
  lemma DenominatorPositive(options: seq<PollOption>, abstentionIsValid: bool)
    ensures SomeOptionSurvives(options, abstentionIsValid) ==> ValidOptionCount(options, abstentionIsValid) >= 1
  {
    if SomeOptionSurvives(options, abstentionIsValid) && !abstentionIsValid {
      var i :| 0 <= i < |options| && SurvivesName(options, abstentionIsValid, options[i].name);
      var o := FirstNamed(options, options[i].name);
      assert options[i] in options;
      var k :| 0 <= k < |options| && options[k] == o.value;
      assert k in SubstantiveOptions(options);
    }
  }

  /** SIMPLE never names a winner: it answers `''` when some option passes
      the filter, and fails with a server error when none does. */
  lemma SimpleNeverNamesWinner(options: seq<PollOption>, isPrivate: bool, abstentionIsValid: bool, ballots: seq<Vote>, users: seq<User>)
    ensures NormalResults(options, isPrivate, Simple, abstentionIsValid, ballots, users).Ok?
            <==> SomeOptionSurvives(options, abstentionIsValid)
    ensures NormalResults(options, isPrivate, Simple, abstentionIsValid, ballots, users).Ok? ==>
      NormalResults(options, isPrivate, Simple, abstentionIsValid, ballots, users).value.winner == ""
  {
    CandidatesExist(options, Simple, abstentionIsValid, ballots);
    NormalWinner(options, isPrivate, Simple, abstentionIsValid, ballots, users);
  }

  /** With the count comparator, the first filtered entry is a surviving
      entry of the declared tally with the fewest votes among survivors. */
  lemma FirstCandidateHasFewestVotes(options: seq<PollOption>, ratio: ApprovalRatio, abstentionIsValid: bool, ballots: seq<Vote>)
    requires ratio != Supermajority
    requires |Candidates(options, ratio, abstentionIsValid, ballots)| > 0
    ensures var c := Candidates(options, ratio, abstentionIsValid, ballots)[0];
      && c in TallyEntries(options, ballots)
      && SurvivesName(options, abstentionIsValid, c.option)
      && forall e :: e in TallyEntries(options, ballots) && SurvivesName(options, abstentionIsValid, e.option)
           ==> c.votes <= e.votes
  {
    var entries := TallyEntries(options, ballots);
    var sorted := SortedTally(options, ratio, ballots);
    var cands := Candidates(options, ratio, abstentionIsValid, ballots);
    SortByCountIsStableAscending(entries);
    SurvivorsAscending(options, abstentionIsValid, sorted);
    assert cands[0] in cands;
    assert cands[0] in multiset(entries);
    forall e | e in entries && SurvivesName(options, abstentionIsValid, e.option) ensures cands[0].votes <= e.votes {
      assert e in multiset(sorted);
      assert e in cands;
      var j :| 0 <= j < |cands| && cands[j] == e;
      if j > 0 {
        assert cands[0].votes <= cands[j].votes;
      }
    }
  }

  /** The entry passes the abstention filter and has `m` votes. */
  predicate SurvivesWithCount(options: seq<PollOption>, abstentionIsValid: bool, e: OptionCount, m: nat)
  {
    SurvivesName(options, abstentionIsValid, e.option) && e.votes == m
  }

  /** The abstention filter and the selection by count commute. */
  lemma {:induction false} SurvivorsWithCount(options: seq<PollOption>, abstentionIsValid: bool, s: seq<OptionCount>, m: nat)
    ensures Survivors(options, abstentionIsValid, WithCount(s, m))
            == WithCount(Survivors(options, abstentionIsValid, s), m)
  {
    if |s| > 0 {
      SurvivorsWithCount(options, abstentionIsValid, s[1..], m);
      var rest := Survivors(options, abstentionIsValid, s[1..]);
      if s[0].votes == m {
        assert WithCount(s, m) == [s[0]] + WithCount(s[1..], m);
        assert ([s[0]] + WithCount(s[1..], m))[1..] == WithCount(s[1..], m);
      } else {
        assert WithCount(s, m) == WithCount(s[1..], m);
      }
      if SurvivesName(options, abstentionIsValid, s[0].option) {
        assert ([s[0]] + rest)[1..] == rest;
      }
    }
  }

  /** The first surviving entry with `m` votes sits at the first position
      holding such an entry. */
  lemma FirstSurvivorWithCount(options: seq<PollOption>, abstentionIsValid: bool, s: seq<OptionCount>, m: nat)
    returns (i: int)
    requires exists j :: 0 <= j < |s| && SurvivesWithCount(options, abstentionIsValid, s[j], m)
    ensures 0 <= i < |s| && SurvivesWithCount(options, abstentionIsValid, s[i], m)
    ensures forall j :: 0 <= j < i ==> !SurvivesWithCount(options, abstentionIsValid, s[j], m)
    ensures |WithCount(Survivors(options, abstentionIsValid, s), m)| > 0
    ensures WithCount(Survivors(options, abstentionIsValid, s), m)[0] == s[i]
  {
    var keep := SurvivalFlags(options, abstentionIsValid, s);
    var counted := CountFlags(s, keep, m);
    var w :| 0 <= w < |s| && SurvivesWithCount(options, abstentionIsValid, s[w], m);
    SurvivalFlagAt(options, abstentionIsValid, s, w);
    CountFlagAt(s, keep, m, w);
    i := FirstFlaggedAt(s, counted, 0, w);
    assert s[0..] == s && counted[0..] == counted;
    SurvivorsAreFlagged(options, abstentionIsValid, s);
    WithCountOfFlagged(s, keep, m);
    SurvivalFlagAt(options, abstentionIsValid, s, i);
    CountFlagAt(s, keep, m, i);
    forall j | 0 <= j < i
      ensures !SurvivesWithCount(options, abstentionIsValid, s[j], m)
    {
      SurvivalFlagAt(options, abstentionIsValid, s, j);
      CountFlagAt(s, keep, m, j);
    }
  }

  /** With the count comparator, the first candidate is also the first
      surviving entry with its count in the unsorted, declared-order tally:
      the sort is stable, and the filter commutes with the selection by
      count. */
  lemma FirstCandidateFirstOfItsCount(options: seq<PollOption>, abstentionIsValid: bool, ballots: seq<Vote>)
    requires |Candidates(options, Absolute, abstentionIsValid, ballots)| > 0
    ensures var c := Candidates(options, Absolute, abstentionIsValid, ballots)[0];
      var tail := WithCount(Survivors(options, abstentionIsValid, TallyEntries(options, ballots)), c.votes);
      |tail| > 0 && tail[0] == c
  {
    var entries := TallyEntries(options, ballots);
    var sorted := SortedTally(options, Absolute, ballots);
    var cands := Candidates(options, Absolute, abstentionIsValid, ballots);
    var c := cands[0];
    assert WithCount(cands, c.votes) == [c] + WithCount(cands[1..], c.votes);
    SurvivorsWithCount(options, abstentionIsValid, sorted, c.votes);
    SortByCountIsStableAscending(entries);
    SurvivorsWithCount(options, abstentionIsValid, entries, c.votes);
  }

  /** After the stable ascending sort, the first surviving entry is the
      entry of the first option, in declared order, among the surviving
      options with the fewest ballots. */
  lemma AbsoluteCandidateIsFirstOfFewest(options: seq<PollOption>, abstentionIsValid: bool, ballots: seq<Vote>)
    returns (i: int)
    requires SomeOptionSurvives(options, abstentionIsValid)
    ensures 0 <= i < |options|
    ensures |Candidates(options, Absolute, abstentionIsValid, ballots)| > 0
    ensures Candidates(options, Absolute, abstentionIsValid, ballots)[0] == TallyEntries(options, ballots)[i]
    ensures SurvivesName(options, abstentionIsValid, options[i].name)
    ensures forall e :: e in TallyEntries(options, ballots) && SurvivesName(options, abstentionIsValid, e.option)
              ==> TallyEntries(options, ballots)[i].votes <= e.votes
    ensures forall j :: 0 <= j < i ==>
              !SurvivesWithCount(options, abstentionIsValid, TallyEntries(options, ballots)[j], TallyEntries(options, ballots)[i].votes)
  {
    var entries := TallyEntries(options, ballots);
    CandidatesExist(options, Absolute, abstentionIsValid, ballots);
    FirstCandidateHasFewestVotes(options, Absolute, abstentionIsValid, ballots);
    FirstCandidateFirstOfItsCount(options, abstentionIsValid, ballots);
    var c := Candidates(options, Absolute, abstentionIsValid, ballots)[0];
    var j :| 0 <= j < |entries| && entries[j] == c;
    assert SurvivesWithCount(options, abstentionIsValid, entries[j], c.votes);
    i := FirstSurvivorWithCount(options, abstentionIsValid, entries, c.votes);
  }

  /** The position found above, restated over the options and their counts. */
  lemma FewestFirstDeclaredByCount(options: seq<PollOption>, abstentionIsValid: bool, ballots: seq<Vote>, i: int)
    requires 0 <= i < |options|
    requires forall e :: e in TallyEntries(options, ballots) && SurvivesName(options, abstentionIsValid, e.option)
               ==> TallyEntries(options, ballots)[i].votes <= e.votes
    requires forall j :: 0 <= j < i ==>
               !SurvivesWithCount(options, abstentionIsValid, TallyEntries(options, ballots)[j], TallyEntries(options, ballots)[i].votes)
    ensures forall j :: 0 <= j < |options| && SurvivesName(options, abstentionIsValid, options[j].name)
              ==> CountVotes(ballots, options[i].name) <= CountVotes(ballots, options[j].name)
    ensures forall j :: 0 <= j < i && SurvivesName(options, abstentionIsValid, options[j].name)
              ==> CountVotes(ballots, options[i].name) < CountVotes(ballots, options[j].name)
  {
    var entries := TallyEntries(options, ballots);
    forall j | 0 <= j < |options| && SurvivesName(options, abstentionIsValid, options[j].name)
      ensures CountVotes(ballots, options[i].name) <= CountVotes(ballots, options[j].name)
    {
      assert entries[j] in entries;
    }
  }

  /** `winner` is the ABSOLUTE verdict on the first option, in declared
      order, among the surviving options with the fewest ballots: its name
      when twice its count exceeds the denominator `n`, and `''` otherwise. */
  ghost predicate JudgedFewestFirstDeclared(options: seq<PollOption>, abstentionIsValid: bool, ballots: seq<Vote>, n: nat, winner: string)
  {
    exists i ::
      && 0 <= i < |options|
      && SurvivesName(options, abstentionIsValid, options[i].name)
      && (forall j :: 0 <= j < |options| && SurvivesName(options, abstentionIsValid, options[j].name)
            ==> CountVotes(ballots, options[i].name) <= CountVotes(ballots, options[j].name))
      && (forall j :: 0 <= j < i && SurvivesName(options, abstentionIsValid, options[j].name)
            ==> CountVotes(ballots, options[i].name) < CountVotes(ballots, options[j].name))
      && winner == (if 2 * CountVotes(ballots, options[i].name) > n then options[i].name else "")
  }

  /** The ABSOLUTE verdict on the filtered entries, before it is placed in
      the results. */
  lemma AbsoluteWinnerFewestFirstDeclared(options: seq<PollOption>, abstentionIsValid: bool, ballots: seq<Vote>)
    requires SomeOptionSurvives(options, abstentionIsValid)
    ensures var n := ValidOptionCount(options, abstentionIsValid);
      var w := Winner(Absolute, Candidates(options, Absolute, abstentionIsValid, ballots), n);
      w.Ok? && JudgedFewestFirstDeclared(options, abstentionIsValid, ballots, n, w.value)
  {
    var n := ValidOptionCount(options, abstentionIsValid);
    var w := Winner(Absolute, Candidates(options, Absolute, abstentionIsValid, ballots), n);
    var i := AbsoluteCandidateIsFirstOfFewest(options, abstentionIsValid, ballots);
    FewestFirstDeclaredByCount(options, abstentionIsValid, ballots, i);
    JudgedAt(options, abstentionIsValid, ballots, n, w.value, i);
  }

  lemma JudgedAt(options: seq<PollOption>, abstentionIsValid: bool, ballots: seq<Vote>, n: nat, winner: string, i: int)
    requires 0 <= i < |options|
    requires SurvivesName(options, abstentionIsValid, options[i].name)
    requires forall j :: 0 <= j < |options| && SurvivesName(options, abstentionIsValid, options[j].name)
               ==> CountVotes(ballots, options[i].name) <= CountVotes(ballots, options[j].name)
    requires forall j :: 0 <= j < i && SurvivesName(options, abstentionIsValid, options[j].name)
               ==> CountVotes(ballots, options[i].name) < CountVotes(ballots, options[j].name)
    requires winner == (if 2 * CountVotes(ballots, options[i].name) > n then options[i].name else "")
    ensures JudgedFewestFirstDeclared(options, abstentionIsValid, ballots, n, winner)
  {
  }

  /** ABSOLUTE judges the lowest-count surviving option (the first of the
      ascending, stable sort, so the first in declared order among those
      tied for fewest): the winner is its name when twice its count exceeds
      the denominator, and `''` otherwise or when nothing survives. */
  lemma AbsoluteJudgesFewestVotes(options: seq<PollOption>, isPrivate: bool, abstentionIsValid: bool, ballots: seq<Vote>, users: seq<User>)
    ensures NormalResults(options, isPrivate, Absolute, abstentionIsValid, ballots, users).Ok?
    ensures !SomeOptionSurvives(options, abstentionIsValid) ==>
      NormalResults(options, isPrivate, Absolute, abstentionIsValid, ballots, users).value.winner == ""
    ensures SomeOptionSurvives(options, abstentionIsValid) ==>
      JudgedFewestFirstDeclared(options, abstentionIsValid, ballots, ValidOptionCount(options, abstentionIsValid),
        NormalResults(options, isPrivate, Absolute, abstentionIsValid, ballots, users).value.winner)
  {
    CandidatesExist(options, Absolute, abstentionIsValid, ballots);
    NormalWinner(options, isPrivate, Absolute, abstentionIsValid, ballots, users);
    if SomeOptionSurvives(options, abstentionIsValid) {
      AbsoluteWinnerFewestFirstDeclared(options, abstentionIsValid, ballots);
    }
  }

  /** `winner` is the verdict on the first option, in declared order, that
      passes the abstention filter: its name when three times its count
      exceeds twice the denominator `n`, and `''` otherwise. */
  ghost predicate JudgedFirstDeclared(options: seq<PollOption>, abstentionIsValid: bool, ballots: seq<Vote>, n: nat, winner: string)
  {
    exists i ::
      && 0 <= i < |options|
      && SurvivesName(options, abstentionIsValid, options[i].name)
      && (forall j :: 0 <= j < i ==> !SurvivesName(options, abstentionIsValid, options[j].name))
      && winner == (if 3 * CountVotes(ballots, options[i].name) > 2 * n then options[i].name else "")
  }

  /** SUPERMAJORITY keeps the declared order (its comparator is NaN), so it
      judges the first surviving option in declared order: the winner is its
      name when three times its count exceeds twice the denominator, and
      `''` otherwise or when nothing survives. */
  lemma SupermajorityJudgesFirstDeclared(options: seq<PollOption>, isPrivate: bool, abstentionIsValid: bool, ballots: seq<Vote>, users: seq<User>)
    ensures NormalResults(options, isPrivate, Supermajority, abstentionIsValid, ballots, users).Ok?
    ensures !SomeOptionSurvives(options, abstentionIsValid) ==>
      NormalResults(options, isPrivate, Supermajority, abstentionIsValid, ballots, users).value.winner == ""
    ensures SomeOptionSurvives(options, abstentionIsValid) ==>
      JudgedFirstDeclared(options, abstentionIsValid, ballots, ValidOptionCount(options, abstentionIsValid),
        NormalResults(options, isPrivate, Supermajority, abstentionIsValid, ballots, users).value.winner)
  {
    CandidatesExist(options, Supermajority, abstentionIsValid, ballots);
    NormalWinner(options, isPrivate, Supermajority, abstentionIsValid, ballots, users);
    if SomeOptionSurvives(options, abstentionIsValid) {
      SupermajorityWinnerFirstDeclared(options, abstentionIsValid, ballots);
    }
  }

  /** The SUPERMAJORITY verdict on the filtered entries, before it is placed
      in the results. */
  lemma SupermajorityWinnerFirstDeclared(options: seq<PollOption>, abstentionIsValid: bool, ballots: seq<Vote>)
    requires SomeOptionSurvives(options, abstentionIsValid)
    ensures var n := ValidOptionCount(options, abstentionIsValid);
      var w := Winner(Supermajority, Candidates(options, Supermajority, abstentionIsValid, ballots), n);
      w.Ok? && JudgedFirstDeclared(options, abstentionIsValid, ballots, n, w.value)
  {
    var n := ValidOptionCount(options, abstentionIsValid);
    var w := Winner(Supermajority, Candidates(options, Supermajority, abstentionIsValid, ballots), n);
    var i := SupermajorityCandidate(options, abstentionIsValid, ballots);
    assert w.value == (if 3 * CountVotes(ballots, options[i].name) > 2 * n then options[i].name else "");
  }

  lemma SupermajorityCandidate(options: seq<PollOption>, abstentionIsValid: bool, ballots: seq<Vote>) returns (i: int)
    requires SomeOptionSurvives(options, abstentionIsValid)
    ensures 0 <= i < |options|
    ensures SurvivesName(options, abstentionIsValid, options[i].name)
    ensures forall j :: 0 <= j < i ==> !SurvivesName(options, abstentionIsValid, options[j].name)
    ensures |Candidates(options, Supermajority, abstentionIsValid, ballots)| > 0
    ensures Candidates(options, Supermajority, abstentionIsValid, ballots)[0]
            == OptionCount(options[i].name, CountVotes(ballots, options[i].name))
  {
    var entries := TallyEntries(options, ballots);
    SortByIndexOneKeepsOrder(entries);
    i := FirstSurvivorIsFirstDeclared(options, abstentionIsValid, ballots);
    assert SortedTally(options, Supermajority, ballots) == entries;
  }

  lemma FirstSurvivorIsFirstDeclared(options: seq<PollOption>, abstentionIsValid: bool, ballots: seq<Vote>)
    returns (i: int)
    requires SomeOptionSurvives(options, abstentionIsValid)
    ensures 0 <= i < |options|
    ensures SurvivesName(options, abstentionIsValid, options[i].name)
    ensures forall j :: 0 <= j < i ==> !SurvivesName(options, abstentionIsValid, options[j].name)
    ensures |Survivors(options, abstentionIsValid, TallyEntries(options, ballots))| > 0
    ensures Survivors(options, abstentionIsValid, TallyEntries(options, ballots))[0] == TallyEntries(options, ballots)[i]
  {
    var entries := TallyEntries(options, ballots);
    var keep := SurvivalFlags(options, abstentionIsValid, entries);
    var w :| 0 <= w < |options| && SurvivesName(options, abstentionIsValid, options[w].name);
    SurvivalFlagAt(options, abstentionIsValid, entries, w);
    i := FirstFlaggedAt(entries, keep, 0, w);
    assert entries[0..] == entries && keep[0..] == keep;
    SurvivorsAreFlagged(options, abstentionIsValid, entries);
    SurvivalFlagAt(options, abstentionIsValid, entries, i);
    forall j | 0 <= j < i
      ensures !SurvivesName(options, abstentionIsValid, options[j].name)
    {
      SurvivalFlagAt(options, abstentionIsValid, entries, j);
    }
  }

  /** Whether each entry survives the abstention filter, computed once so
      that the scan below reasons about booleans only. */
  function SurvivalFlags(options: seq<PollOption>, abstentionIsValid: bool, entries: seq<OptionCount>): (f: seq<bool>)
    ensures |f| == |entries|
  {
    if |entries| == 0 then []
    else [SurvivesName(options, abstentionIsValid, entries[0].option)]
         + SurvivalFlags(options, abstentionIsValid, entries[1..])
  }

  lemma {:induction false} SurvivalFlagAt(options: seq<PollOption>, abstentionIsValid: bool, entries: seq<OptionCount>, j: nat)
    requires j < |entries|
    ensures SurvivalFlags(options, abstentionIsValid, entries)[j] == SurvivesName(options, abstentionIsValid, entries[j].option)
  {
    if j > 0 {
      SurvivalFlagAt(options, abstentionIsValid, entries[1..], j - 1);
    }
  }

  /** The entries whose flag is set, in order. */
  function Flagged(entries: seq<OptionCount>, keep: seq<bool>): (r: seq<OptionCount>)
    requires |keep| == |entries|
    ensures |r| <= |entries|
  {
    if |entries| == 0 then []
    else (if keep[0] then [entries[0]] else []) + Flagged(entries[1..], keep[1..])
  }

  /** The abstention filter keeps exactly the flagged entries. */
  lemma {:induction false} SurvivorsAreFlagged(options: seq<PollOption>, abstentionIsValid: bool, entries: seq<OptionCount>)
    ensures Survivors(options, abstentionIsValid, entries)
            == Flagged(entries, SurvivalFlags(options, abstentionIsValid, entries))
  {
    if |entries| > 0 {
      SurvivorsAreFlagged(options, abstentionIsValid, entries[1..]);
      assert SurvivalFlags(options, abstentionIsValid, entries)[1..]
             == SurvivalFlags(options, abstentionIsValid, entries[1..]);
    }
  }

  /** Scanning from position `k`: the first flagged entry of the suffix is
      the one at the first set flag at or after `k`. */
  lemma {:induction false} FirstFlaggedAt(entries: seq<OptionCount>, keep: seq<bool>, k: nat, w: nat)
    returns (i: int)
    requires |keep| == |entries|
    requires k <= w < |keep| && keep[w]
    requires forall j :: 0 <= j < k ==> !keep[j]
    ensures k <= i <= w && keep[i]
    ensures forall j :: 0 <= j < i ==> !keep[j]
    ensures |Flagged(entries[k..], keep[k..])| > 0
    ensures Flagged(entries[k..], keep[k..])[0] == entries[i]
    decreases w - k
  {
    assert entries[k..][1..] == entries[k + 1..];
    assert keep[k..][1..] == keep[k + 1..];
    if keep[k] {
      i := k;
    } else {
      i := FirstFlaggedAt(entries, keep, k + 1, w);
    }
  }

  /** The flags of the entries that are flagged and have `m` votes. */
  function CountFlags(entries: seq<OptionCount>, keep: seq<bool>, m: nat): (f: seq<bool>)
    requires |keep| == |entries|
    ensures |f| == |entries|
  {
    if |entries| == 0 then []
    else [keep[0] && entries[0].votes == m] + CountFlags(entries[1..], keep[1..], m)
  }

  lemma {:induction false} CountFlagAt(entries: seq<OptionCount>, keep: seq<bool>, m: nat, j: nat)
    requires |keep| == |entries| && j < |entries|
    ensures CountFlags(entries, keep, m)[j] == (keep[j] && entries[j].votes == m)
  {
    if j > 0 {
      CountFlagAt(entries[1..], keep[1..], m, j - 1);
    }
  }

  /** Selecting a count from the flagged entries flags the entries that
      have that count too. */
  lemma {:induction false} WithCountOfFlagged(entries: seq<OptionCount>, keep: seq<bool>, m: nat)
    requires |keep| == |entries|
    ensures WithCount(Flagged(entries, keep), m) == Flagged(entries, CountFlags(entries, keep, m))
  {
    if |entries| > 0 {
      WithCountOfFlagged(entries[1..], keep[1..], m);
      var rest := Flagged(entries[1..], keep[1..]);
      assert CountFlags(entries, keep, m)[1..] == CountFlags(entries[1..], keep[1..], m);
      if keep[0] {
        assert ([entries[0]] + rest)[1..] == rest;
      } else {
        assert [] + rest == rest;
      }
    }
  }
}
