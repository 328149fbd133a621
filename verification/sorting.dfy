/** `Array.prototype.sort` on the tally entries, with the two comparators
    the tabulator passes to it.

    ECMAScript requires the sort to be stable, so it is modelled as a
    stable insertion sort over the sign of the comparator's value. A
    comparator whose value is NaN is not a consistent comparator in the
    sense of ECMAScript, which leaves the resulting order to the engine;
    the model takes the engine to read NaN as +0, as V8's stable TimSort
    does, so such a comparator keeps the entries in their given order. */
module Sorting {
  import opened Domain

  /** `(a, b) => a.votes - b.votes` and `(a, b) => a[1] - b[1]`. The second
      reads a missing index of an object, so it computes `undefined -
      undefined`, which is NaN for every pair. */
  datatype Comparator = CountDifference | IndexOneDifference

  /** The comparator's value as the sort reads it (NaN taken as +0, the
      engine's reading). */
  function Compare(c: Comparator, a: OptionCount, b: OptionCount): int
  {
    match c
    case CountDifference => a.votes - b.votes
    case IndexOneDifference => 0
  }

  /** Places `x` before the first entry it does not compare above. */
  function Insert(c: Comparator, x: OptionCount, s: seq<OptionCount>): (r: seq<OptionCount>)
    ensures |r| == |s| + 1
  {
    if |s| == 0 || Compare(c, x, s[0]) <= 0 then [x] + s
    else [s[0]] + Insert(c, x, s[1..])
  }

  /** Insertion sort: each entry, from the last to the first, is inserted
      into the sorted rest. */
  function Sort(c: Comparator, s: seq<OptionCount>): (r: seq<OptionCount>)
    ensures |r| == |s|
  {
    if |s| == 0 then [] else Insert(c, s[0], Sort(c, s[1..]))
  }

  ghost predicate Ascending(s: seq<OptionCount>)
  {
    forall i, j :: 0 <= i < j < |s| ==> s[i].votes <= s[j].votes
  }

  /** The entries with `k` votes, in the order they appear in `s`. */
  function WithCount(s: seq<OptionCount>, k: nat): seq<OptionCount>
  {
    if |s| == 0 then []
    else (if s[0].votes == k then [s[0]] else []) + WithCount(s[1..], k)
  }

  lemma {:induction false} InsertKeepsEntries(c: Comparator, x: OptionCount, s: seq<OptionCount>)
    ensures multiset(Insert(c, x, s)) == multiset(s) + multiset{x}
  {
    if |s| > 0 && Compare(c, x, s[0]) > 0 {
      InsertKeepsEntries(c, x, s[1..]);
      assert s == [s[0]] + s[1..];
    }
  }

  /** A bound below every entry and below `x` stays below every entry after
      the insertion. */
  lemma {:induction false} InsertKeepsLowerBound(x: OptionCount, s: seq<OptionCount>, b: int)
    requires b <= x.votes
    requires forall i :: 0 <= i < |s| ==> b <= s[i].votes
    ensures forall j :: 0 <= j < |Insert(CountDifference, x, s)| ==> b <= Insert(CountDifference, x, s)[j].votes
  {
    var r := Insert(CountDifference, x, s);
    if |s| == 0 || x.votes <= s[0].votes {
      assert r == [x] + s;
      forall j | 0 <= j < |r| ensures b <= r[j].votes {
        if j > 0 {
          assert r[j] == s[j - 1];
        }
      }
    } else {
      var t := Insert(CountDifference, x, s[1..]);
      InsertKeepsLowerBound(x, s[1..], b);
      assert r == [s[0]] + t;
      forall j | 0 <= j < |r| ensures b <= r[j].votes {
        if j > 0 {
          assert r[j] == t[j - 1];
        }
      }
    }
  }

  /** An entry no larger than any entry of an ascending list heads it. */
  lemma ConsAscending(h: OptionCount, t: seq<OptionCount>)
    requires Ascending(t)
    requires forall j :: 0 <= j < |t| ==> h.votes <= t[j].votes
    ensures Ascending([h] + t)
  {
    var r := [h] + t;
    forall i, j | 0 <= i < j < |r| ensures r[i].votes <= r[j].votes {
      assert r[j] == t[j - 1];
      if i > 0 {
        assert r[i] == t[i - 1];
      }
    }
  }

  lemma {:induction false} InsertAscending(x: OptionCount, s: seq<OptionCount>)
    requires Ascending(s)
    ensures Ascending(Insert(CountDifference, x, s))
  {
    if |s| == 0 || x.votes <= s[0].votes {
      forall j | 0 <= j < |s| ensures x.votes <= s[j].votes {
        assert s[0].votes <= s[j].votes;
      }
      ConsAscending(x, s);
    } else {
      var t := Insert(CountDifference, x, s[1..]);
      InsertAscending(x, s[1..]);
      forall i | 0 <= i < |s[1..]| ensures s[0].votes <= s[1..][i].votes {
        assert s[1..][i] == s[i + 1];
      }
      InsertKeepsLowerBound(x, s[1..], s[0].votes);
      ConsAscending(s[0], t);
    }
  }

  lemma {:induction false} InsertStable(x: OptionCount, s: seq<OptionCount>, k: nat)
    requires Ascending(s)
    ensures WithCount(Insert(CountDifference, x, s), k)
            == (if x.votes == k then [x] else []) + WithCount(s, k)
  {
    var r := Insert(CountDifference, x, s);
    if |s| == 0 || x.votes <= s[0].votes {
      assert r == [x] + s;
      assert r[1..] == s;
    } else {
      var t := Insert(CountDifference, x, s[1..]);
      InsertStable(x, s[1..], k);
      assert r == [s[0]] + t;
      assert r[1..] == t;
      assert WithCount(r, k) == (if s[0].votes == k then [s[0]] else []) + WithCount(t, k);
    }
  }

  /** Sorting by `a.votes - b.votes` leaves the entries ascending by count,
      loses or adds none, and keeps entries of equal count in their
      original order (stability). */
  lemma {:induction false} SortByCountIsStableAscending(s: seq<OptionCount>)
    ensures Ascending(Sort(CountDifference, s))
    ensures multiset(Sort(CountDifference, s)) == multiset(s)
    ensures forall k :: WithCount(Sort(CountDifference, s), k) == WithCount(s, k)
  {
    if |s| > 0 {
      var t := Sort(CountDifference, s[1..]);
      SortByCountIsStableAscending(s[1..]);
      InsertAscending(s[0], t);
      InsertKeepsEntries(CountDifference, s[0], t);
      assert s == [s[0]] + s[1..];
      forall k ensures WithCount(Sort(CountDifference, s), k) == WithCount(s, k) {
        InsertStable(s[0], t, k);
      }
    }
  }

  /** Sorting with the NaN comparator changes nothing: read as +0, every
      pair compares equal and the sort is stable. */
  lemma {:induction false} SortByIndexOneKeepsOrder(s: seq<OptionCount>)
    ensures Sort(IndexOneDifference, s) == s
  {
    if |s| > 0 {
      SortByIndexOneKeepsOrder(s[1..]);
      assert s == [s[0]] + s[1..];
    }
  }
}
