/**
 * `broadcastState` (src/nodes/node.ts:7-22): the POST requests a node sends to its peers.
 * Each request is recorded as a `Post`; sending it is not part of the model.
 */
module Broadcast {
  import opened States

  /** One `/message` request: its destination node and the body `{ senderId, ...state }`. */
  datatype Post = Post(dest: nat, senderId: nat, state: NodeState)

  /** The requests for destinations 0 .. n-1 in order, skipping the sender itself. */
  function Fanout(n: nat, nodeId: nat, s: NodeState): seq<Post> {
    if n == 0 then []
    else Fanout(n - 1, nodeId, s) + (if n - 1 == nodeId then [] else [Post(n - 1, nodeId, s)])
  }

  /** The nodes a sequence of requests goes to. */
  function Destinations(posts: seq<Post>): set<nat> {
    set i | 0 <= i < |posts| :: posts[i].dest
  }

  /** A broadcast sends N - 1 requests when the sender is one of the N nodes, N otherwise. */
  lemma {:induction false} FanoutLength(n: nat, nodeId: nat, s: NodeState)
    ensures |Fanout(n, nodeId, s)| == if nodeId < n then n - 1 else n
  {
    if n > 0 {
      FanoutLength(n - 1, nodeId, s);
    }
  }

  /**
   * Every request carries the sender's id and its state and goes to a node of 0 .. N-1 other
   * than the sender, in strictly ascending order of destination (so none twice).
   */
  lemma {:induction false} FanoutPosts(n: nat, nodeId: nat, s: NodeState)
    ensures forall i :: 0 <= i < |Fanout(n, nodeId, s)| ==>
              var p := Fanout(n, nodeId, s)[i];
              p.senderId == nodeId && p.state == s && p.dest < n && p.dest != nodeId
    ensures forall i, j :: 0 <= i < j < |Fanout(n, nodeId, s)| ==>
              Fanout(n, nodeId, s)[i].dest < Fanout(n, nodeId, s)[j].dest
  {
    if n > 0 {
      FanoutPosts(n - 1, nodeId, s);
      var prev, posts := Fanout(n - 1, nodeId, s), Fanout(n, nodeId, s);
      assert forall i :: 0 <= i < |prev| ==> posts[i] == prev[i];
    }
  }

  /** A broadcast reaches exactly the nodes of 0 .. N-1 other than the sender. */
  lemma {:induction false} FanoutTargets(n: nat, nodeId: nat, s: NodeState)
    ensures forall d: nat :: d in Destinations(Fanout(n, nodeId, s)) <==> d < n && d != nodeId
  {
    if n > 0 {
      FanoutTargets(n - 1, nodeId, s);
      var prev, posts := Fanout(n - 1, nodeId, s), Fanout(n, nodeId, s);
      assert forall i :: 0 <= i < |prev| ==> posts[i] == prev[i];
      assert Destinations(posts) == Destinations(prev) + (if n - 1 == nodeId then {} else {n - 1}) by {
        if n - 1 != nodeId { assert posts[|prev|].dest == n - 1; }
      }
    }
  }

  /** The `for` loop of `broadcastState`: one request per peer, collected in order. */
  method BroadcastState(n: nat, nodeId: nat, s: NodeState) returns (posts: seq<Post>)
    ensures posts == Fanout(n, nodeId, s)
  {
    posts := [];
    for i := 0 to n
      invariant posts == Fanout(i, nodeId, s)
    {
      if i != nodeId {
        posts := posts + [Post(i, nodeId, s)];
      }
    }
  }
}
