# Ben-Or consensus node — a Dafny model

This project models one participant of a Ben-Or style binary consensus network, as implemented
in `src/nodes/node.ts`. Each node keeps:

- a state record `{ killed, x, decided, k }`: killed flag, current value, decided flag, round;
- a vote ledger `receivedVotes`, mapping each round to the values received for it, in order.

The node answers `/message`, `/start`, `/stop`, `/status` and `/getState`. When the current
round's ledger entry reaches a quorum of `N - F` votes, the decision step
`processVotesAndDecide` runs:

- If some value's count exceeds `N/2`, the node decides that value.
- Otherwise it takes a random bit, advances the round by one and broadcasts its new state to
  every peer.

## Layout

| file | module | contents |
|---|---|---|
| `options.dfy` | `Options` | the `Option` type for the source's nullable fields |
| `votes.dfy` | `Votes` | the `reduce` tally, the order of `Object.entries`, the `forEach` majority scan, and lemmas about the decision they produce |
| `state.dfy` | `States` | the `NodeState` record, the decision step as a pure function, and the invariant a node keeps |
| `broadcast.dfy` | `Broadcast` | the `broadcastState` fan-out as a loop, checked against a recursive specification |
| `node.dfy` | `ConsensusNode` | the class `Node`, whose fields are the closure variables and whose methods are the handlers |

## How the model reads the code

- `count > N / 2` is floating-point in the source. Here it is `2 * count > N` over the
  integers, which is the same test for natural numbers.
- `Object.entries` lists keys in a fixed order:
  - integer keys in `0 .. 2^32 - 2` (array indices) first, in ascending order;
  - all other keys after them, in the order they were first written.
- The `forEach` keeps the **last** entry whose count is a majority. The model keeps this order
  (`Votes.KeyOrder`, `Votes.LastMajority`). It matters only when two values both have a majority.
- `Math.random() < 0.5` is the boolean parameter `coin`. When it is true the new value is 0,
  otherwise 1.
- `!state.decided` is true both for `false` and for the `null` that `/stop` writes. So the
  decision step re-broadcasts unless `decided` is exactly `true` (`States.Rebroadcasts`).
- `broadcastState` does not send anything here. Each request it would send is appended to the
  node's `outbox` as a `Post(dest, senderId, state)`.
- `Node.Valid` is the invariant every handler preserves:
  - a decided node's round holds at least `N - F` votes;
  - a decided node's value has more than `N/2` of them;
  - a faulty node never decides, never records a vote and never sends anything.

### Quirks of the code

The model keeps each of these, since the code behaves this way. Textbook Ben-Or differs in
each case.

- A node's own value never enters its ledger. Only `/message` appends to `receivedVotes`,
  and `broadcastState` skips the sender.
- `killed` is never consulted. `/message` and `/start` check only `isFaulty`, so both still
  act after `/stop`. Because `/stop` resets `k` to 0, round-0 votes are accepted again.
- `/stop` replaces the whole record with `{ killed: true, x: null, decided: null, k: 0 }`,
  even on a decided node, so the decided value is lost.
- A decision is not final. Every accepted vote for the decided round re-runs the decision
  step:
  - With at most `N` votes in the round, the value and the round stay fixed
    (`States.AfterVoteConsistent`).
  - Nothing stops a peer from voting twice in one round. Past `N` votes, a second value can
    also reach a majority. It then replaces the decided value if it comes later in
    `Object.entries` (`States.DecidedValueCanChange`).

## Model

| member | source | states |
|---|---|---|
| Votes.TallyCounts | src/nodes/node.ts:51-54 | the `reduce` tally has a key exactly for each voted value, mapped to the number of votes it received |
| Votes.InsertionOrderLists | src/nodes/node.ts:51-54 | the order in which the `reduce` first writes keys lists each voted value exactly once |
| Votes.SelectKeeps | src/nodes/node.ts:57 | splitting the keys into array-index and other keys keeps exactly the keys of each kind, without repeats |
| Votes.InsertAdds | src/nodes/node.ts:57 | placing an array-index key among the sorted ones adds exactly that key |
| Votes.InsertKeepsAscending | src/nodes/node.ts:57 | placing a new key keeps the array-index keys strictly ascending |
| Votes.AscendingSorts | src/nodes/node.ts:57 | the array-index keys that `Object.entries` lists are strictly ascending and are exactly the given keys |
| Votes.KeyOrderLists | src/nodes/node.ts:57 | `Object.entries` lists each voted value exactly once, every array-index key before every other key, array-index keys in ascending order |
| Votes.EntriesListEachVote | src/nodes/node.ts:51-57 | entry `i` of `Object.entries(voteCounts)` is the `i`-th key with the number of votes that value received |
| Votes.LastMajority | src/nodes/node.ts:56-62 | the scan yields null exactly when no visited entry's count exceeds N/2, and otherwise the value of the last entry whose count does |
| Votes.ScanMajority | src/nodes/node.ts:56-62 | the `forEach` loop leaves in `decidedValue` the value of the last entry whose count exceeds N/2, or null |
| Votes.DecisionIsMajority | src/nodes/node.ts:56-64 | the step decides exactly when some value's count exceeds N/2, and the decided value is a vote with such a count |
| Votes.LargestMajorityWins | src/nodes/node.ts:57-62 | when every vote is an array-index value and several have a majority, the largest of them is decided |
| Votes.TwoCountsBound | src/nodes/node.ts:51-54 | the counts of two different values add up to at most the number of votes |
| Votes.UniqueMajority | src/nodes/node.ts:59-60 | with at most N votes in the round, a value whose count exceeds N/2 is the one decided, whatever the key order |
| Votes.MajorityPersists | src/nodes/node.ts:89-93 | another vote in the round never takes away an existing majority |
| States.Initial | src/nodes/node.ts:38-43 | a new node is not killed, not decided and in round 0; `x` is the initial value on a correct node and null on a faulty one |
| States.DecideOnMajority | src/nodes/node.ts:56-66 | if some value exceeds N/2 the step sets `decided` to true and `x` to a value with a majority (exactly that value with at most N votes), keeps `k` and `killed`, and does not re-broadcast |
| States.DecideOnSplit | src/nodes/node.ts:67-75 | if no value exceeds N/2 the step sets `x` to 0 or 1 by the coin, adds exactly one to `k`, keeps `decided` and `killed`, and re-broadcasts unless already decided |
| States.AfterVoteConsistent | src/nodes/node.ts:89-93 | after a vote, the state stays consistent with its round, or the round moves on by exactly one while undecided; a decided node stays decided, keeps its round, sends nothing more and keeps its value while the round holds at most N votes |
| States.DecidedValueCanChange | src/nodes/node.ts:56-66 | with N = 3 and F = 1, a node decided on 0 keeps 0 after votes 0, 0, 1 and switches to 1 after a further vote 1 |
| Broadcast.FanoutLength | src/nodes/node.ts:9-10 | a broadcast sends N - 1 requests when the sender is one of the N nodes |
| Broadcast.FanoutPosts | src/nodes/node.ts:9-16 | every request carries the sender's id and its state and goes to another node of 0 .. N-1, in strictly ascending order of destination |
| Broadcast.FanoutTargets | src/nodes/node.ts:9-10 | the requests go to exactly the nodes of 0 .. N-1 other than the sender |
| Broadcast.BroadcastState | src/nodes/node.ts:7-20 | the loop of `broadcastState` builds exactly the fan-out specified by `Fanout` |
| ConsensusNode.Node.constructor | src/nodes/node.ts:38-45 | a new node holds the initial state, an empty vote ledger and nothing sent, and satisfies the invariant |
| ConsensusNode.Node.Status | src/nodes/node.ts:78-80 | `/status` reports live exactly when the node is not faulty |
| ConsensusNode.Node.GetState | src/nodes/node.ts:82-84 | `/getState` returns the state record and changes nothing |
| ConsensusNode.Node.BroadcastOwnState | src/nodes/node.ts:104 | broadcasting appends the fan-out of the current state to the sent requests and changes nothing else |
| ConsensusNode.Node.ProcessVotesAndDecide | src/nodes/node.ts:47-76 | the new state is the decision step applied to the current round's votes, and the fan-out of the new state is sent exactly when the node is not decided |
| ConsensusNode.Node.RecordVote | src/nodes/node.ts:89-94 | the vote is appended to the current round only, the decision step runs exactly when that round then holds N - F votes, and the invariant is kept |
| ConsensusNode.Node.Message | src/nodes/node.ts:86-100 | a faulty node rejects the message; a vote for another round changes nothing; otherwise one vote is appended and the step runs at quorum |
| ConsensusNode.Node.Start | src/nodes/node.ts:102-109 | a correct node sends one fan-out of its state and keeps its state; a faulty node sends nothing and reports failure |
| ConsensusNode.Node.Stop | src/nodes/node.ts:111-114 | the state becomes the fixed killed record whatever it was and whether or not the node is faulty, so stopping twice equals stopping once; the vote ledger and sent requests are untouched |

## Left out

- HTTP plumbing: the express app, routing, JSON body parsing, `app.listen`, `setNodeIsReady`
  and logging. Status codes and reply texts are reduced to the boolean a handler returns.
- Network sends: `fetch`, `Promise.all` and the fire-and-forget `.catch`. A request is recorded
  in `outbox` and never delivered, so delivery failures and the async ordering of handlers do
  not appear.
- `Math.random()`: replaced by the `coin` parameter.
- Agreement between nodes and probabilistic termination. Both need a model of several
  concurrent nodes and message interleavings; this model is one sequential node.
- Vote values are mathematical integers:
  - a `null` or non-numeric `x` in a message body is not modelled (a stopped peer would send `null`);
  - so are the string conversion of object keys and `parseInt`'s round trip for values too
    large or too precise for a decimal string.
- A message's `senderId` is read and ignored by the source. The model does not take it.
- Votes.KeyOrderLists: states the order of array-index keys only. That the other keys
  (negative values and values of 2^32 - 1 or more) follow in order of first arrival is how
  `KeyOrder` is defined, not a proved property.
