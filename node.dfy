/**
 * One consensus participant (src/nodes/node.ts:24-122): the closure variables `state` and
 * `receivedVotes` become the fields of a `Node`, and the `/message`, `/start`, `/stop`,
 * `/status` and `/getState` handlers become its methods. Requests the node sends to its
 * peers are appended to `outbox` instead of being fetched.
 */
module ConsensusNode {
  import opened Options
  import opened Votes
  import opened States
  import opened Broadcast

  /** `receivedVotes[round] || []`. */
  function RoundVotes(votes: map<nat, seq<int>>, round: nat): seq<int> {
    if round in votes then votes[round] else []
  }

  class Node {
    const nodeId: nat
    const n: nat
    const f: nat
    const isFaulty: bool

    /** The record `state`. */
    var state: NodeState
    /** `receivedVotes`: the values received for each round, in order of arrival. */
    var votes: map<nat, seq<int>>
    /** Every `/message` request this node has sent, in order. */
    var outbox: seq<Post>

    /**
     * A decided node holds a quorum `N - F` of votes for its round, and its value has more
     * than N/2 of them; a faulty node never decides, never records a vote and never sends
     * anything.
     */
    ghost predicate Valid()
      reads this
    {
      Consistent(state, RoundVotes(votes, state.k), n, n as int - f as int) &&
      (isFaulty ==> state.decided != Some(true) && votes == map[] && outbox == [])
    }

    /** Creating a node (node.ts:24-45): round 0, undecided, not killed, no votes. */
    constructor (nodeId: nat, n: nat, f: nat, initialValue: int, isFaulty: bool)
      ensures Valid()
      ensures this.nodeId == nodeId && this.n == n && this.f == f && this.isFaulty == isFaulty
      ensures state == Initial(initialValue, isFaulty)
      ensures votes == map[] && outbox == []
    {
      this.nodeId, this.n, this.f, this.isFaulty := nodeId, n, f, isFaulty;
      state := Initial(initialValue, isFaulty);
      votes, outbox := map[], [];
    }

    /** `/status` (node.ts:78-80): live exactly when the node is not faulty. */
    method Status() returns (live: bool)
      ensures live == !isFaulty
    {
      live := !isFaulty;
    }

    /** `/getState` (node.ts:82-84): the current state record, changing nothing. */
    method GetState() returns (s: NodeState)
      ensures s == state
    {
      s := state;
    }

    /** `broadcastState(N, nodeId, state)`: one request to every peer, carrying the current state. */
    method BroadcastOwnState()
      modifies this`outbox
      ensures outbox == old(outbox) + Fanout(n, nodeId, state)
    {
      var posts := BroadcastState(n, nodeId, state);
      outbox := outbox + posts;
    }

    /**
     * `processVotesAndDecide` (node.ts:47-76): decide on the current round's votes, or take
     * the coin's value and move on a round; re-broadcast unless decided.
     */
    method ProcessVotesAndDecide(coin: bool)
      modifies this`state, this`outbox
      ensures state == Decide(old(state), RoundVotes(votes, old(state.k)), n, coin)
      ensures outbox == old(outbox) + (if Rebroadcasts(state) then Fanout(n, nodeId, state) else [])
    {
      var currentRoundVotes := RoundVotes(votes, state.k);
      var entries := Entries(currentRoundVotes);
      var decidedValue := ScanMajority(entries, n);
      if decidedValue.Some? {
        state := state.(decided := Some(true), x := decidedValue);
      } else {
        state := state.(x := Some(CoinValue(coin)), k := state.k + 1);
      }
      if state.decided != Some(true) {
        BroadcastOwnState();
      }
    }

    /**
     * The accepted branch of `/message` (node.ts:90-94): append the vote to the current
     * round's list and run the decision step once the list holds a quorum `N - F`.
     */
    method RecordVote(vote: int, coin: bool)
      requires Valid() && !isFaulty
      modifies this`state, this`votes, this`outbox
      ensures Valid()
      ensures votes == old(votes)[old(state.k) := RoundVotes(old(votes), old(state.k)) + [vote]]
      ensures state == AfterVote(old(state), RoundVotes(votes, old(state.k)), n, n as int - f as int, coin)
      ensures outbox == old(outbox) +
                if |RoundVotes(votes, old(state.k))| >= n as int - f as int && Rebroadcasts(state)
                then Fanout(n, nodeId, state) else []
    {
      ghost var s, before := state, RoundVotes(votes, state.k);
      votes := votes[state.k := RoundVotes(votes, state.k) + [vote]];
      assert RoundVotes(votes, s.k) == before + [vote];
      AfterVoteConsistent(s, before, vote, n, n as int - f as int, coin);
      if |votes[state.k]| >= n - f {
        ProcessVotesAndDecide(coin);
      }
    }

    /**
     * `/message` (node.ts:86-100): a faulty node rejects the request; a vote for another
     * round than the current one is dropped; otherwise the vote is recorded. `killed` is
     * not checked.
     */
    method Message(msgK: int, msgX: int, coin: bool) returns (ok: bool)
      requires Valid()
      modifies this`state, this`votes, this`outbox
      ensures Valid()
      ensures ok == !isFaulty
      ensures isFaulty || msgK != old(state.k) ==>
                state == old(state) && votes == old(votes) && outbox == old(outbox)
      ensures !isFaulty && msgK == old(state.k) ==>
                votes == old(votes)[old(state.k) := RoundVotes(old(votes), old(state.k)) + [msgX]] &&
                state == AfterVote(old(state), RoundVotes(votes, old(state.k)), n, n as int - f as int, coin) &&
                outbox == old(outbox) +
                  if |RoundVotes(votes, old(state.k))| >= n as int - f as int && Rebroadcasts(state)
                  then Fanout(n, nodeId, state) else []
    {
      if !isFaulty {
        if msgK == state.k {
          RecordVote(msgX, coin);
        }
        ok := true;
      } else {
        ok := false;
      }
    }

    /** `/start` (node.ts:102-109): a non-faulty node broadcasts its state; `killed` is not checked. */
    method Start() returns (ok: bool)
      requires Valid()
      modifies this`outbox
      ensures Valid()
      ensures ok == !isFaulty
      ensures outbox == old(outbox) + if isFaulty then [] else Fanout(n, nodeId, state)
    {
      if !isFaulty {
        BroadcastOwnState();
        ok := true;
      } else {
        ok := false;
      }
    }

    /**
     * `/stop` (node.ts:111-114): overwrite the state with the killed record, faulty or not,
     * leaving the recorded votes alone.
     */
    method Stop()
      requires Valid()
      modifies this`state
      ensures Valid()
      ensures state == Stopped
    {
      state := Stopped;
    }
  }
}
