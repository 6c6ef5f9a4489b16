/**
 * A node's state record (src/nodes/node.ts:38-43) and the state change made by the
 * decision step `processVotesAndDecide` (src/nodes/node.ts:64-75), as pure functions.
 */
module States {
  import opened Options
  import opened Votes

  /**
   * The record `state`. `x` is null on a faulty or stopped node; `decided` is null after
   * `/stop`, which is why it has three states.
   */
  datatype NodeState = NodeState(killed: bool, x: Option<int>, decided: Option<bool>, k: nat)

  /** The record `/stop` writes over the state (node.ts:112). */
  const Stopped := NodeState(true, None, None, 0)

  /** The state of a freshly created node (node.ts:38-43). */
  function Initial(initialValue: int, isFaulty: bool): (s: NodeState)
    ensures !s.killed && s.decided == Some(false) && s.k == 0
    ensures s.x == if isFaulty then None else Some(initialValue)
  {
    NodeState(false, if isFaulty then None else Some(initialValue), Some(false), 0)
  }

  /** The value `Math.random() < 0.5 ? 0 : 1` yields; `coin` is the outcome of the comparison. */
  function CoinValue(coin: bool): int {
    if coin then 0 else 1
  }

  /**
   * The state after the decision step on the current round's votes: decide the majority
   * value, or take the coin's value and move to the next round.
   */
  function Decide(s: NodeState, current: seq<int>, n: nat, coin: bool): NodeState {
    match Decision(current, n)
    case Some(v) => s.(decided := Some(true), x := Some(v))
    case None => s.(x := Some(CoinValue(coin)), k := s.k + 1)
  }

  /** `!state.decided` at node.ts:73: both false and null let the step re-broadcast. */
  predicate Rebroadcasts(s: NodeState) {
    s.decided != Some(true)
  }

  /**
   * Some value's count exceeds N/2: the node decides a value with such a count, keeps its
   * round and does not re-broadcast; with at most N votes it decides exactly that value.
   */
  lemma DecideOnMajority(s: NodeState, current: seq<int>, n: nat, coin: bool, v: int)
    requires v in current && 2 * multiset(current)[v] > n
    ensures Decide(s, current, n, coin).decided == Some(true)
    ensures Decide(s, current, n, coin).k == s.k && Decide(s, current, n, coin).killed == s.killed
    ensures !Rebroadcasts(Decide(s, current, n, coin))
    ensures Decide(s, current, n, coin).x.Some?
    ensures var d := Decide(s, current, n, coin).x.value; d in current && 2 * multiset(current)[d] > n
    ensures |current| <= n ==> Decide(s, current, n, coin).x == Some(v)
  {
    DecisionIsMajority(current, n);
    if |current| <= n {
      UniqueMajority(current, n, v);
    }
  }

  /**
   * No value's count exceeds N/2: the node takes the coin's value (0 or 1), advances the
   * round by exactly one, leaves `decided` and `killed` as they were, and re-broadcasts
   * unless it had already decided.
   */
  lemma DecideOnSplit(s: NodeState, current: seq<int>, n: nat, coin: bool)
    requires forall v :: v in current ==> 2 * multiset(current)[v] <= n
    ensures Decide(s, current, n, coin).x == Some(if coin then 0 else 1)
    ensures Decide(s, current, n, coin).k == s.k + 1
    ensures Decide(s, current, n, coin).decided == s.decided
    ensures Decide(s, current, n, coin).killed == s.killed
    ensures Rebroadcasts(Decide(s, current, n, coin)) <==> s.decided != Some(true)
  {
    DecisionIsMajority(current, n);
  }

  /** A decided state's value holds more than N/2 of the round's votes. */
  predicate HoldsMajority(s: NodeState, current: seq<int>, n: nat) {
    s.decided == Some(true) ==>
      s.x.Some? && s.x.value in current && 2 * multiset(current)[s.x.value] > n
  }

  /**
   * What a node keeps true of its state and its current round's votes: once decided, the
   * round holds a quorum and the value has more than N/2 of the votes.
   */
  predicate Consistent(s: NodeState, current: seq<int>, n: nat, quorum: int) {
    HoldsMajority(s, current, n) && (s.decided == Some(true) ==> |current| >= quorum)
  }

  /**
   * The state after a vote has been appended to the current round's list `current`
   * (node.ts:92-93): the decision step runs exactly when the list holds a quorum.
   */
  function AfterVote(s: NodeState, current: seq<int>, n: nat, quorum: int, coin: bool): NodeState {
    if |current| >= quorum then Decide(s, current, n, coin) else s
  }

  /**
   * Recording a vote keeps the state consistent with its round's votes and moves the round
   * on by at most one. A decided node stays decided, keeps its round, sends nothing more
   * and still holds a majority; with at most N votes in the round its value does not
   * change either.
   */
  lemma AfterVoteConsistent(s: NodeState, before: seq<int>, vote: int, n: nat, quorum: int, coin: bool)
    requires Consistent(s, before, n, quorum)
    ensures var s' := AfterVote(s, before + [vote], n, quorum, coin);
      (s'.k == s.k && Consistent(s', before + [vote], n, quorum)) ||
      (s'.k == s.k + 1 && s'.decided != Some(true))
    ensures var s' := AfterVote(s, before + [vote], n, quorum, coin);
      s.decided == Some(true) ==>
        s'.decided == Some(true) && s'.k == s.k && !Rebroadcasts(s') &&
        (|before| + 1 <= n ==> s'.x == s.x)
  {
    var current := before + [vote];
    assert multiset(current) == multiset(before) + multiset{vote};
    if s.decided == Some(true) {
      var v := s.x.value;
      assert v in current && 2 * multiset(current)[v] > n;
      DecideOnMajority(s, current, n, coin, v);
    }
    if |current| >= quorum {
      DecisionIsMajority(current, n);
    }
  }

  /**
   * More than N votes can arrive in one round, since nothing stops a peer from sending the
   * same round twice. Then a decided node can change its value: with N = 3 and F = 1, a node
   * decided on 0 after votes 0, 0 keeps 0 after a third vote 1 but takes 1 after a fourth,
   * because 1 now also exceeds N/2 and comes later in `Object.entries`.
   */
  lemma DecidedValueCanChange(coin: bool)
    ensures var s := NodeState(false, Some(0), Some(true), 0);
      var s1 := AfterVote(s, [0, 0, 1], 3, 2, coin);
      var s2 := AfterVote(s1, [0, 0, 1, 1], 3, 2, coin);
      Consistent(s, [0, 0], 3, 2) &&
      s1 == s && s2.decided == Some(true) && s2.k == 0 && s2.x == Some(1)
  {
    var a, b := [0, 0, 1], [0, 0, 1, 1];
    assert multiset(a)[0] == 2 && a == [0, 0] + [1];
    assert multiset(b)[1] == 2 && b == a + [1];
    UniqueMajority(a, 3, 0);
    LargestMajorityWins(b, 3, 1);
    DecisionIsMajority(b, 3);
  }
}
