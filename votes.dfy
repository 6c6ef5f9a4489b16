/**
 * The decision engine's pure part (src/nodes/node.ts:47-62): the per-value tally built by
 * `reduce`, the order in which `Object.entries` lists the tally's keys, and the `forEach`
 * that keeps the last value whose count exceeds N/2.
 */
module Votes {
  import opened Options

  /** No value occurs twice. */
  ghost predicate Distinct(s: seq<int>) {
    forall i, j :: 0 <= i < j < |s| ==> s[i] != s[j]
  }

  /** Strictly ascending. */
  ghost predicate Increasing(s: seq<int>) {
    forall i, j :: 0 <= i < j < |s| ==> s[i] < s[j]
  }

  /**
   * A JavaScript object key that is an array index: the decimal form of an integer in
   * 0 .. 2^32 - 2. Such keys are listed first, in ascending numeric order.
   */
  predicate IsArrayIndex(v: int) {
    0 <= v < 0xFFFF_FFFF
  }

  /** The `reduce` at node.ts:51-54: counts per value, folding the votes left to right. */
  function Tally(votes: seq<int>): map<int, nat> {
    if votes == [] then map[]
    else
      var acc, last := Tally(votes[..|votes| - 1]), votes[|votes| - 1];
      acc[last := (if last in acc then acc[last] else 0) + 1]
  }

  /** The tally has a key for each voted value, counting how many votes it received. */
  lemma {:induction false} TallyCounts(votes: seq<int>)
    ensures forall v :: v in Tally(votes) <==> v in votes
    ensures forall v :: v in Tally(votes) ==> Tally(votes)[v] == multiset(votes)[v]
  {
    if votes != [] {
      var init, last := votes[..|votes| - 1], votes[|votes| - 1];
      assert votes == init + [last];
      TallyCounts(init);
    }
  }

  /** The order in which the `reduce` first writes each key: first occurrence in the votes. */
  function InsertionOrder(votes: seq<int>): seq<int> {
    if votes == [] then []
    else
      var keys, last := InsertionOrder(votes[..|votes| - 1]), votes[|votes| - 1];
      if last in keys then keys else keys + [last]
  }

  /** Each voted value is written as a key exactly once. */
  lemma {:induction false} InsertionOrderLists(votes: seq<int>)
    ensures forall v :: v in InsertionOrder(votes) <==> v in votes
    ensures Distinct(InsertionOrder(votes))
  {
    if votes != [] {
      var init, last := votes[..|votes| - 1], votes[|votes| - 1];
      assert votes == init + [last];
      InsertionOrderLists(init);
    }
  }

  /** The elements `v` of `s` with `IsArrayIndex(v) == index`, in their order in `s`. */
  function Select(s: seq<int>, index: bool): seq<int> {
    if s == [] then []
    else if IsArrayIndex(s[0]) == index then [s[0]] + Select(s[1..], index)
    else Select(s[1..], index)
  }

  /** Selecting keeps exactly the elements of the chosen kind, and keeps them distinct. */
  lemma {:induction false} SelectKeeps(s: seq<int>, index: bool)
    requires Distinct(s)
    ensures forall v :: v in Select(s, index) <==> v in s && IsArrayIndex(v) == index
    ensures Distinct(Select(s, index))
  {
    if s != [] {
      assert Distinct(s[1..]) by {
        forall i, j | 0 <= i < j < |s[1..]| ensures s[1..][i] != s[1..][j] {
          assert s[1..][i] == s[i + 1] && s[1..][j] == s[j + 1];
        }
      }
      SelectKeeps(s[1..], index);
      assert s[0] !in s[1..] by {
        forall i | 0 <= i < |s[1..]| ensures s[1..][i] != s[0] { assert s[1..][i] == s[i + 1]; }
      }
      assert s == [s[0]] + s[1..];
    }
  }

  /** Inserts a key into an ascending sequence of keys, before the first larger one. */
  function Insert(v: int, s: seq<int>): seq<int> {
    if s == [] then [v]
    else if v < s[0] then [v] + s
    else [s[0]] + Insert(v, s[1..])
  }

  /** Inserting a key adds just that key. */
  lemma {:induction false} InsertAdds(v: int, s: seq<int>)
    ensures forall w :: w in Insert(v, s) <==> w == v || w in s
  {
    if s != [] && v >= s[0] {
      InsertAdds(v, s[1..]);
      assert s == [s[0]] + s[1..];
    }
  }

  /** Inserting a new key into an ascending sequence keeps it ascending. */
  lemma {:induction false} InsertKeepsAscending(v: int, s: seq<int>)
    requires Increasing(s) && v !in s
    ensures Increasing(Insert(v, s))
  {
    InsertAdds(v, s);
    if s == [] {
    } else if v < s[0] {
      var r := [v] + s;
      forall i, j | 0 <= i < j < |r| ensures r[i] < r[j] {
        if i == 0 && j > 1 { assert s[0] < s[j - 1]; }
      }
    } else {
      var rest := Insert(v, s[1..]);
      InsertKeepsAscending(v, s[1..]);
      InsertAdds(v, s[1..]);
      assert forall w :: w in rest ==> s[0] < w by {
        forall w | w in rest ensures s[0] < w {
          if w != v { var j :| 0 <= j < |s[1..]| && s[1..][j] == w; assert s[j + 1] == w; }
        }
      }
      var r := [s[0]] + rest;
      forall i, j | 0 <= i < j < |r| ensures r[i] < r[j] {
        assert r[j] == rest[j - 1] && rest[j - 1] in rest;
      }
    }
  }

  /** The keys of `s` in ascending numeric order, each once. */
  function Ascending(s: seq<int>): seq<int> {
    if s == [] then []
    else
      var rest := Ascending(s[1..]);
      if s[0] in rest then rest else Insert(s[0], rest)
  }

  /** Sorting yields an ascending sequence of exactly the given keys. */
  lemma {:induction false} AscendingSorts(s: seq<int>)
    ensures Increasing(Ascending(s))
    ensures forall w :: w in Ascending(s) <==> w in s
  {
    if s != [] {
      AscendingSorts(s[1..]);
      if s[0] !in Ascending(s[1..]) {
        InsertKeepsAscending(s[0], Ascending(s[1..]));
        InsertAdds(s[0], Ascending(s[1..]));
      }
      assert s == [s[0]] + s[1..];
    }
  }

  /**
   * The order of `Object.entries` over the tally: array-index keys ascending, then the
   * other keys (here: the negative values and those of 2^32 - 1 or more) in the order the
   * `reduce` first wrote them.
   */
  function KeyOrder(votes: seq<int>): seq<int> {
    var first := InsertionOrder(votes);
    Ascending(Select(first, true)) + Select(first, false)
  }

  /**
   * `Object.entries` lists each voted value exactly once, and every array-index key comes
   * before every other key and after the smaller array-index keys.
   */
  lemma KeyOrderLists(votes: seq<int>)
    ensures forall v :: v in KeyOrder(votes) <==> v in votes
    ensures Distinct(KeyOrder(votes))
    ensures forall i, j :: 0 <= i < j < |KeyOrder(votes)| && IsArrayIndex(KeyOrder(votes)[j]) ==>
              IsArrayIndex(KeyOrder(votes)[i]) && KeyOrder(votes)[i] < KeyOrder(votes)[j]
  {
    var first := InsertionOrder(votes);
    InsertionOrderLists(votes);
    SelectKeeps(first, true);
    SelectKeeps(first, false);
    AscendingSorts(Select(first, true));
    var indices, others := Ascending(Select(first, true)), Select(first, false);
    var keys := indices + others;
    assert forall i :: 0 <= i < |keys| ==> (IsArrayIndex(keys[i]) <==> i < |indices|) by {
      forall i | 0 <= i < |keys| ensures IsArrayIndex(keys[i]) <==> i < |indices| {
        if i < |indices| { assert keys[i] in indices; } else { assert keys[i] == others[i - |indices|]; }
      }
    }
    assert Distinct(keys) by {
      forall i, j | 0 <= i < j < |keys| ensures keys[i] != keys[j] {
        if j < |indices| {
        } else if i >= |indices| {
          assert keys[i] == others[i - |indices|] && keys[j] == others[j - |indices|];
        }
      }
    }
  }

  /** `Object.entries(voteCounts)`: each key of the tally with its count, in `KeyOrder`. */
  function Entries(votes: seq<int>): seq<(int, nat)> {
    var counts, keys := Tally(votes), KeyOrder(votes);
    TallyCounts(votes);
    KeyOrderLists(votes);
    assert forall i :: 0 <= i < |keys| ==> keys[i] in keys;
    seq(|keys|, i requires 0 <= i < |keys| => (keys[i], counts[keys[i]]))
  }

  /**
   * The entries list every voted value exactly once, array-index values first and in
   * ascending order, each with the number of votes it received.
   */
  lemma EntriesListEachVote(votes: seq<int>)
    ensures |Entries(votes)| == |KeyOrder(votes)|
    ensures forall i :: 0 <= i < |Entries(votes)| ==>
              Entries(votes)[i].0 == KeyOrder(votes)[i] &&
              Entries(votes)[i].1 == multiset(votes)[Entries(votes)[i].0]
  {
    TallyCounts(votes);
    KeyOrderLists(votes);
    var keys := KeyOrder(votes);
    forall i | 0 <= i < |keys| ensures Entries(votes)[i] == (keys[i], multiset(votes)[keys[i]]) {
      assert keys[i] in keys;
    }
  }

  /** Whether an entry's count is greater than N/2, stated over the integers as 2*count > N. */
  predicate IsMajority(entry: (int, nat), n: nat) {
    2 * entry.1 > n
  }

  /** Entry `i` is a majority and no later entry before `end` is. */
  ghost predicate IsLastMajorityAt(entries: seq<(int, nat)>, n: nat, end: nat, i: int)
    requires end <= |entries|
  {
    0 <= i < end && IsMajority(entries[i], n) &&
    forall j :: i < j < end ==> !IsMajority(entries[j], n)
  }

  /**
   * What the `forEach` at node.ts:57-62 leaves in `decidedValue` after visiting the first
   * `end` entries: the value of the last entry whose count is a majority, or null if none is.
   */
  function LastMajority(entries: seq<(int, nat)>, n: nat, end: nat): (r: Option<int>)
    requires end <= |entries|
    ensures r.None? <==> forall i :: 0 <= i < end ==> !IsMajority(entries[i], n)
    ensures r.Some? ==> exists i :: IsLastMajorityAt(entries, n, end, i) && entries[i].0 == r.value
  {
    if end == 0 then None
    else if IsMajority(entries[end - 1], n) then
      assert IsLastMajorityAt(entries, n, end, end - 1);
      Some(entries[end - 1].0)
    else
      var r := LastMajority(entries, n, end - 1);
      assert r.Some? ==> exists i :: IsLastMajorityAt(entries, n, end, i) && entries[i].0 == r.value by {
        if r.Some? {
          var i :| IsLastMajorityAt(entries, n, end - 1, i) && entries[i].0 == r.value;
          assert IsLastMajorityAt(entries, n, end, i);
        }
      }
      r
  }

  /** The value the decision step decides on for a round's votes, if any. */
  function Decision(votes: seq<int>, n: nat): Option<int> {
    var entries := Entries(votes);
    LastMajority(entries, n, |entries|)
  }

  /** The `forEach` at node.ts:56-62: scans the entries and keeps the last majority value. */
  method ScanMajority(entries: seq<(int, nat)>, n: nat) returns (decidedValue: Option<int>)
    ensures decidedValue == LastMajority(entries, n, |entries|)
  {
    decidedValue := None;
    for i := 0 to |entries|
      invariant decidedValue == LastMajority(entries, n, i)
    {
      if IsMajority(entries[i], n) {
        decidedValue := Some(entries[i].0);
      }
    }
  }

  /**
   * The decision exists exactly when some value's count exceeds N/2, and a decided value
   * is one of the votes with such a count.
   */
  lemma DecisionIsMajority(votes: seq<int>, n: nat)
    ensures Decision(votes, n).None? <==> forall v :: v in votes ==> 2 * multiset(votes)[v] <= n
    ensures Decision(votes, n).Some? ==>
              Decision(votes, n).value in votes && 2 * multiset(votes)[Decision(votes, n).value] > n
  {
    var entries, keys := Entries(votes), KeyOrder(votes);
    EntriesListEachVote(votes);
    KeyOrderLists(votes);
    if Decision(votes, n).Some? {
      var i :| IsLastMajorityAt(entries, n, |entries|, i) && entries[i].0 == Decision(votes, n).value;
      assert keys[i] in keys;
    } else {
      forall v | v in votes ensures 2 * multiset(votes)[v] <= n {
        var i :| 0 <= i < |keys| && keys[i] == v;
        assert !IsMajority(entries[i], n);
      }
    }
  }

  /**
   * When every vote is an array-index value (0 and 1 among them), `Object.entries` lists the
   * keys ascending, so of several values with a majority the largest one is decided.
   */
  lemma LargestMajorityWins(votes: seq<int>, n: nat, w: int)
    requires forall v :: v in votes ==> IsArrayIndex(v)
    requires w in votes && 2 * multiset(votes)[w] > n
    ensures Decision(votes, n).Some? && w <= Decision(votes, n).value
  {
    var entries, keys := Entries(votes), KeyOrder(votes);
    EntriesListEachVote(votes);
    KeyOrderLists(votes);
    DecisionIsMajority(votes, n);
    var i :| IsLastMajorityAt(entries, n, |entries|, i) && entries[i].0 == Decision(votes, n).value;
    var j :| 0 <= j < |keys| && keys[j] == w;
    assert IsMajority(entries[j], n);
    if j < i {
      assert keys[i] in votes;
    }
  }

  /** Two different values together occur at most as often as there are votes. */
  lemma {:induction false} TwoCountsBound(votes: seq<int>, v: int, w: int)
    requires v != w
    ensures multiset(votes)[v] + multiset(votes)[w] <= |votes|
  {
    if votes != [] {
      var init, last := votes[..|votes| - 1], votes[|votes| - 1];
      assert votes == init + [last];
      TwoCountsBound(init, v, w);
    }
  }

  /**
   * With at most N votes in the round, at most one value can have a count above N/2,
   * so that value is the decision whatever the key order.
   */
  lemma UniqueMajority(votes: seq<int>, n: nat, v: int)
    requires |votes| <= n
    requires v in votes && 2 * multiset(votes)[v] > n
    ensures Decision(votes, n) == Some(v)
  {
    DecisionIsMajority(votes, n);
    var d := Decision(votes, n).value;
    if d != v {
      TwoCountsBound(votes, v, d);
    }
  }

  /** Appending a vote never takes a majority away: counts only grow. */
  lemma MajorityPersists(votes: seq<int>, extra: int, n: nat)
    requires Decision(votes, n).Some?
    ensures Decision(votes + [extra], n).Some?
  {
    DecisionIsMajority(votes, n);
    DecisionIsMajority(votes + [extra], n);
    var d := Decision(votes, n).value;
    assert multiset(votes + [extra]) == multiset(votes) + multiset{extra};
    assert d in votes + [extra];
  }
}
