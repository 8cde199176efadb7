/** What `runDijkstra` keeps true of its nodes, queue and current minimum, and
    what follows once its loop stops: every finished node carries the weight
    of a lightest walk from the start, every other node is unreachable, and
    the parent links form a tree of lightest walks. Node `x` wraps host
    `hs[x]`; `order[x]` is the number of nodes finished before `x`. */
module ShortestPaths {
  import opened Wrappers
  import opened Chains
  import opened Hosts
  import opened Graph
  import opened Paths

  type Nodes = seq<DijkstraNode>

  /** Node `x` wraps `hs[x]`, and every distance is between 0 and
      `Integer.MAX_VALUE`. */
  ghost predicate Shaped(hs: seq<Host>, nodes: Nodes, s: nat)
  {
    |nodes| == |hs| && s < |hs| &&
    forall x :: 0 <= x < |nodes| ==> nodes[x].host == hs[x] && 0 <= nodes[x].distance <= Infinity
  }

  /** The queue holds, once each, the nodes not done other than `cur`. */
  ghost predicate Queued(nodes: Nodes, queue: seq<nat>, cur: Option<nat>, count: nat)
  {
    (forall i :: 0 <= i < |queue| ==> queue[i] < |nodes|) &&
    (forall x :: 0 <= x < |nodes| ==>
       multiset(queue)[x] == if !nodes[x].done && cur != Some(x) then 1 else 0) &&
    (cur.Some? ==> cur.value < |nodes| && !nodes[cur.value].done) &&
    count + |queue| + (if cur.Some? then 1 else 0) == |nodes|
  }

  /** `u` comes first in the queue's order. */
  ghost predicate Minimal(nodes: Nodes, u: nat, queue: seq<nat>)
    requires u < |nodes| && forall i :: 0 <= i < |queue| ==> queue[i] < |nodes|
  {
    forall i :: 0 <= i < |queue| ==> CompareTo(nodes[u], nodes[queue[i]]) <= 0
  }

  /** No node not done is nearer than `u`. */
  ghost predicate Lowest(nodes: Nodes, u: nat)
    requires u < |nodes|
  {
    forall q :: 0 <= q < |nodes| && !nodes[q].done ==> nodes[u].distance <= nodes[q].distance
  }

  /** Finished nodes carry a distance no walk beats. */
  ghost predicate Settled(hs: seq<Host>, b: Adjacency, s: nat, nodes: Nodes)
    requires |b| == MaxNetworkSize
  {
    forall y :: 0 <= y < |nodes| && nodes[y].done ==>
      nodes[y].distance < Infinity && NoShorter(hs, b, s, y, nodes[y].distance)
  }

  /** Every connection out of a finished node has been relaxed. */
  ghost predicate Relaxed(hs: seq<Host>, b: Adjacency, nodes: Nodes)
    requires |b| == MaxNetworkSize
  {
    forall y: nat, t: nat, z: nat {:trigger Arc(hs, b, y, t, z)} :: y < |nodes| && nodes[y].done && Arc(hs, b, y, t, z) && z < |nodes| ==>
      nodes[z].distance <= nodes[y].distance + Cost(hs, b, y, t)
  }

  /** Finished nodes are no farther than the others. */
  ghost predicate DoneFirst(nodes: Nodes)
  {
    forall y, q :: 0 <= y < |nodes| && 0 <= q < |nodes| && nodes[y].done && !nodes[q].done ==>
      nodes[y].distance <= nodes[q].distance
  }

  /** Finite distances are at most `k` maximal weights. */
  ghost predicate Bounded(nodes: Nodes, k: nat, w: int)
  {
    forall x :: 0 <= x < |nodes| && nodes[x].distance < Infinity ==> nodes[x].distance <= k * w
  }

  /** `x`'s distance is `p`'s plus the weight of a connection from `p` to `x`. */
  ghost predicate Tight(hs: seq<Host>, b: Adjacency, nodes: Nodes, p: nat, x: nat)
    requires |b| == MaxNetworkSize && p < |nodes| && x < |nodes|
  {
    exists t :: Arc(hs, b, p, t, x) && nodes[x].distance == nodes[p].distance + Cost(hs, b, p, t)
  }

  /** The parent link of `x`: none for the start and unreached nodes; else a
      node finished before `x` (or `working`, the one being expanded) whose
      connection to `x` gives `x` its distance. */
  ghost predicate Linked(hs: seq<Host>, b: Adjacency, s: nat, nodes: Nodes, order: seq<nat>,
                         working: Option<nat>, x: nat)
    requires |b| == MaxNetworkSize && |order| == |nodes| && x < |nodes|
  {
    match nodes[x].parent
    case None => x == s || nodes[x].distance == Infinity
    case Some(p) =>
      p < |nodes| && (nodes[p].done || working == Some(p)) && nodes[x].distance < Infinity &&
      (nodes[x].done ==> nodes[p].done && order[p] < order[x]) && Tight(hs, b, nodes, p, x)
  }

  ghost predicate Tree(hs: seq<Host>, b: Adjacency, s: nat, nodes: Nodes, order: seq<nat>, count: nat,
                       working: Option<nat>)
    requires |b| == MaxNetworkSize
  {
    |order| == |nodes| && s < |nodes| && nodes[s].parent == None && nodes[s].distance == 0 &&
    (forall x :: 0 <= x < |nodes| && nodes[x].done ==> order[x] < count) &&
    (forall x :: 0 <= x < |nodes| ==> Linked(hs, b, s, nodes, order, working, x))
  }

  /** The network as `runDijkstra` needs it. */
  ghost predicate Routable(hs: seq<Host>, b: Adjacency)
    requires |b| == MaxNetworkSize
  {
    DistinctHosts(hs) && Closed(hs, b) && WeightsBounded(hs, b) && |hs| > 0
  }

  /** The state at the head of the main loop, `cur` being the node just
      polled. */
  ghost predicate Frontier(hs: seq<Host>, b: Adjacency, s: nat, nodes: Nodes, queue: seq<nat>,
                           cur: Option<nat>, order: seq<nat>, count: nat)
    requires |b| == MaxNetworkSize
  {
    Routable(hs, b) && Shaped(hs, nodes, s) && Queued(nodes, queue, cur, count) &&
    Settled(hs, b, s, nodes) && Relaxed(hs, b, nodes) && DoneFirst(nodes) &&
    Bounded(nodes, count, MaxWeight(|hs|)) && Tree(hs, b, s, nodes, order, count, None) &&
    (cur.Some? ==> Minimal(nodes, cur.value, queue)) && (cur.None? ==> queue == [])
  }

  /** A node is done exactly when it has been reached. */
  ghost predicate DoneIffReached(nodes: Nodes)
  {
    forall x :: 0 <= x < |nodes| ==> (nodes[x].done <==> nodes[x].distance < Infinity)
  }

  /** The state while the connections of `u` are relaxed. */
  ghost predicate Relaxing(hs: seq<Host>, b: Adjacency, s: nat, nodes: Nodes, queue: seq<nat>, u: nat,
                           order: seq<nat>, count: nat)
    requires |b| == MaxNetworkSize
  {
    Routable(hs, b) && Shaped(hs, nodes, s) && Queued(nodes, queue, Some(u), count) &&
    Settled(hs, b, s, nodes) && Relaxed(hs, b, nodes) && DoneFirst(nodes) && Lowest(nodes, u) &&
    nodes[u].distance < Infinity && NoShorter(hs, b, s, u, nodes[u].distance) &&
    nodes[u].distance <= count * MaxWeight(|hs|) &&
    Bounded(nodes, count + 1, MaxWeight(|hs|)) && Tree(hs, b, s, nodes, order, count, Some(u)) &&
    (nodes[u].parent.Some? ==> nodes[u].parent.value < |nodes| && nodes[nodes[u].parent.value].done)
  }

  /** The first `k` connections of `u` have been relaxed. */
  ghost predicate RelaxedFrom(hs: seq<Host>, b: Adjacency, nodes: Nodes, u: nat, k: nat)
    requires |b| == MaxNetworkSize && u < |nodes|
  {
    forall j: nat, z: nat {:trigger Arc(hs, b, u, j, z)} :: j < k && Arc(hs, b, u, j, z) && z < |nodes| ==>
      nodes[z].distance <= nodes[u].distance + Cost(hs, b, u, j)
  }

  /** What the main loop leaves: finished nodes are exactly those reached,
      they carry lightest distances, the others are unreachable, and the
      parent links are tight and point to nodes finished earlier. */
  ghost predicate ShortestPathTree(hs: seq<Host>, b: Adjacency, s: nat, nodes: Nodes, order: seq<nat>)
    requires |b| == MaxNetworkSize
  {
    Routable(hs, b) && Shaped(hs, nodes, s) && Settled(hs, b, s, nodes) &&
    Tree(hs, b, s, nodes, order, |nodes|, None) && DoneIffReached(nodes) &&
    (forall x :: 0 <= x < |nodes| && !nodes[x].done ==> !Reachable(hs, b, s, x))
  }

  // ---------------------------------------------------------------------------
  // Starting the loop.

  /** The nodes `setupDijkstras` makes: all at `Integer.MAX_VALUE` but the
      start, none done, none with a parent. */
  ghost predicate Fresh(hs: seq<Host>, nodes: Nodes, s: nat)
  {
    |nodes| == |hs| && s < |hs| &&
    forall x :: 0 <= x < |nodes| ==>
      nodes[x] == DijkstraNode(hs[x], None, false, if x == s then 0 else Infinity)
  }

  /** After `setupDijkstras` and the first `poll` the loop invariant holds. */
  lemma FrontierStart(hs: seq<Host>, b: Adjacency, s: nat, nodes: Nodes, queue: seq<nat>,
                      cur: Option<nat>, order: seq<nat>)
    requires |b| == MaxNetworkSize && Routable(hs, b) && Fresh(hs, nodes, s) && |order| == |nodes|
    requires Queued(nodes, queue, cur, 0)
    requires cur.Some? ==> Minimal(nodes, cur.value, queue)
    requires cur.None? ==> queue == []
    ensures Frontier(hs, b, s, nodes, queue, cur, order, 0)
  {
    forall x | 0 <= x < |nodes|
      ensures Linked(hs, b, s, nodes, order, None, x)
    {
    }
  }

  // ---------------------------------------------------------------------------
  // Settling the polled node.

  lemma MinimalIsLowest(nodes: Nodes, queue: seq<nat>, u: nat, count: nat, hs: seq<Host>, s: nat)
    requires Shaped(hs, nodes, s) && Queued(nodes, queue, Some(u), count) && Minimal(nodes, u, queue)
    ensures Lowest(nodes, u)
  {
    forall q | 0 <= q < |nodes| && !nodes[q].done
      ensures nodes[u].distance <= nodes[q].distance
    {
      if q != u {
        assert multiset(queue)[q] == 1;
        assert q in queue;
        var i :| 0 <= i < |queue| && queue[i] == q;
        assert CompareTo(nodes[u], nodes[queue[i]]) <= 0;
      }
    }
  }

  /** Along a walk from the start whose first `i` nodes are finished, the
      `i`-th node's distance is at most the weight so far. */
  lemma {:induction false} PrefixBound(hs: seq<Host>, b: Adjacency, s: nat, nodes: Nodes,
                                       ns: seq<nat>, ts: seq<nat>, i: nat)
    requires |b| == MaxNetworkSize && WeightsBounded(hs, b) && Shaped(hs, nodes, s)
    requires Relaxed(hs, b, nodes) && nodes[s].distance == 0
    requires IsWalk(hs, b, ns, ts) && ns[0] == s && i <= |ts|
    requires forall k :: 0 <= k < |ns| ==> ns[k] < |nodes|
    requires forall k :: 0 <= k < i ==> nodes[ns[k]].done
    ensures Steps(hs, b, ns[..i + 1], ts[..i])
    ensures nodes[ns[i]].distance <= Weight(hs, b, ns[..i + 1], ts[..i])
  {
    WalkPrefix(hs, b, ns, ts, i);
    if i > 0 {
      PrefixBound(hs, b, s, nodes, ns, ts, i - 1);
      WeightPrefixStep(hs, b, ns, ts, i);
      assert Arc(hs, b, ns[i - 1], ts[i - 1], ns[i]);
    }
  }

  /** `ns[j]` is the first node of the walk that is not done. */
  lemma FirstNotDone(nodes: Nodes, ns: seq<nat>, x: nat) returns (j: nat)
    requires forall k :: 0 <= k < |ns| ==> ns[k] < |nodes|
    requires x < |ns| && !nodes[ns[x]].done
    ensures j <= x && !nodes[ns[j]].done && forall k :: 0 <= k < j ==> nodes[ns[k]].done
  {
    j := 0;
    while nodes[ns[j]].done
      invariant j <= x && forall k :: 0 <= k < j ==> nodes[ns[k]].done
      decreases x - j
    {
      j := j + 1;
    }
  }

  /** The node polled with the least distance cannot be reached more
      cheaply: any walk to it leaves the finished nodes somewhere, at a node
      no nearer than it. */
  lemma SettleNext(hs: seq<Host>, b: Adjacency, s: nat, nodes: Nodes, u: nat)
    requires |b| == MaxNetworkSize && WeightsBounded(hs, b) && Shaped(hs, nodes, s)
    requires Relaxed(hs, b, nodes) && nodes[s].distance == 0
    requires u < |nodes| && !nodes[u].done && Lowest(nodes, u)
    ensures NoShorter(hs, b, s, u, nodes[u].distance)
  {
    forall ns, ts | WalkBetween(hs, b, s, u, ns, ts)
      ensures nodes[u].distance <= Weight(hs, b, ns, ts)
    {
      forall k | 0 <= k < |ns|
        ensures ns[k] < |nodes|
      {
        if k < |ts| {
          assert Arc(hs, b, ns[k], ts[k], ns[k + 1]);
        }
      }
      var j := FirstNotDone(nodes, ns, |ts|);
      PrefixBound(hs, b, s, nodes, ns, ts, j);
      WeightPrefix(hs, b, ns, ts, j);
    }
  }

  /** A polled node that has been reached is settled: its connections can
      now be relaxed, none of them yet. */
  lemma Expand(hs: seq<Host>, b: Adjacency, s: nat, nodes: Nodes, queue: seq<nat>, u: nat,
               order: seq<nat>, count: nat)
    requires |b| == MaxNetworkSize && Frontier(hs, b, s, nodes, queue, Some(u), order, count)
    requires nodes[u].distance != Infinity
    ensures Relaxing(hs, b, s, nodes, queue, u, order, count) && RelaxedFrom(hs, b, nodes, u, 0)
  {
    MinimalIsLowest(nodes, queue, u, count, hs, s);
    SettleNext(hs, b, s, nodes, u);
    BoundedMore(nodes, count, MaxWeight(|hs|));
    TreeWorking(hs, b, s, nodes, order, count, u);
  }

  lemma BoundedMore(nodes: Nodes, count: nat, w: nat)
    requires Bounded(nodes, count, w)
    ensures Bounded(nodes, count + 1, w)
  {
    MulMonotone(w, count, count + 1);
  }

  /** The links of a tree with no node being expanded still hold once `u`
      is, and `u`'s own parent is finished. */
  lemma TreeWorking(hs: seq<Host>, b: Adjacency, s: nat, nodes: Nodes, order: seq<nat>, count: nat, u: nat)
    requires |b| == MaxNetworkSize && Tree(hs, b, s, nodes, order, count, None) && u < |nodes|
    ensures Tree(hs, b, s, nodes, order, count, Some(u))
    ensures nodes[u].parent.Some? ==> nodes[u].parent.value < |nodes| && nodes[nodes[u].parent.value].done
  {
    assert Linked(hs, b, s, nodes, order, None, u);
    forall x | 0 <= x < |nodes|
      ensures Linked(hs, b, s, nodes, order, Some(u), x)
    {
      assert Linked(hs, b, s, nodes, order, None, x);
    }
  }

  // ---------------------------------------------------------------------------
  // Relaxing one connection.

  /** Arcs from one node along one connection all lead to the same node. */
  lemma ArcTarget(hs: seq<Host>, b: Adjacency, y: nat, t: nat, z: nat, z': nat)
    requires |b| == MaxNetworkSize && DistinctHosts(hs)
    requires Arc(hs, b, y, t, z) && Arc(hs, b, y, t, z')
    ensures z == z'
  {
  }

  lemma TightFrame(hs: seq<Host>, b: Adjacency, nodes: Nodes, nodes': Nodes, p: nat, x: nat)
    requires |b| == MaxNetworkSize && |nodes'| == |nodes| && p < |nodes| && x < |nodes|
    requires Tight(hs, b, nodes, p, x)
    requires nodes'[p].distance == nodes[p].distance && nodes'[x].distance == nodes[x].distance
    ensures Tight(hs, b, nodes', p, x)
  {
    var t :| Arc(hs, b, p, t, x) && nodes[x].distance == nodes[p].distance + Cost(hs, b, p, t);
  }

  /** The `k`-th connection of `u` leads to `z`, which keeps its distance. */
  lemma RelaxSkip(hs: seq<Host>, b: Adjacency, nodes: Nodes, u: nat, k: nat, z: nat)
    requires |b| == MaxNetworkSize && DistinctHosts(hs) && WeightsBounded(hs, b)
    requires u < |nodes| && !nodes[u].done && DoneFirst(nodes) && RelaxedFrom(hs, b, nodes, u, k)
    requires Arc(hs, b, u, k, z) && z < |nodes|
    requires nodes[z].done || nodes[u].distance + Cost(hs, b, u, k) >= nodes[z].distance
    ensures RelaxedFrom(hs, b, nodes, u, k + 1)
  {
    ArcWeight(hs, b, u, k, z);
    forall j: nat, z': nat | j < k + 1 && Arc(hs, b, u, j, z') && z' < |nodes|
      ensures nodes[z'].distance <= nodes[u].distance + Cost(hs, b, u, j)
    {
      if j == k {
        ArcTarget(hs, b, u, k, z, z');
      }
    }
  }

  /** The `k`-th connection of `u` leads to `z`, now reached through `u`:
      `z` moves to the back of the queue with its new distance and parent. */
  lemma {:induction false} RelaxUpdate(hs: seq<Host>, b: Adjacency, s: nat, nodes: Nodes, queue: seq<nat>, u: nat,
                    order: seq<nat>, count: nat, k: nat, z: nat, nodes': Nodes, queue': seq<nat>)
    requires |b| == MaxNetworkSize && |nodes| == |hs| && u < |hs| && z < |hs| && k < |b[hs[u].id]|
    requires Relaxing(hs, b, s, nodes, queue, u, order, count)
    requires RelaxedFrom(hs, b, nodes, u, k) && Arc(hs, b, u, k, z)
    requires !nodes[z].done && nodes[u].distance + Cost(hs, b, u, k) < nodes[z].distance
    requires nodes' == nodes[z := nodes[z].(distance := nodes[u].distance + Cost(hs, b, u, k), parent := Some(u))]
    requires queue' == RemoveFirst(queue, z) + [z]
    ensures Relaxing(hs, b, s, nodes', queue', u, order, count)
    ensures RelaxedFrom(hs, b, nodes', u, k + 1)
  {
    RelaxOrder(hs, b, s, nodes, u, count, k, z, nodes');
    RelaxLinks(hs, b, s, nodes, queue, u, order, count, k, z, nodes', queue');
  }

  /** The facts about distances survive the update of `z`. */
  lemma {:induction false} RelaxOrder(hs: seq<Host>, b: Adjacency, s: nat, nodes: Nodes, u: nat, count: nat,
                                      k: nat, z: nat, nodes': Nodes)
    requires |b| == MaxNetworkSize && |nodes| == |hs| && u < |hs| && z < |hs| && k < |b[hs[u].id]|
    requires Routable(hs, b) && Shaped(hs, nodes, s) && !nodes[u].done
    requires Settled(hs, b, s, nodes) && Relaxed(hs, b, nodes) && DoneFirst(nodes) && Lowest(nodes, u)
    requires nodes[u].distance <= count * MaxWeight(|hs|) && Bounded(nodes, count + 1, MaxWeight(|hs|))
    requires Arc(hs, b, u, k, z) && !nodes[z].done && nodes[u].distance + Cost(hs, b, u, k) < nodes[z].distance
    requires nodes' == nodes[z := nodes[z].(distance := nodes[u].distance + Cost(hs, b, u, k), parent := Some(u))]
    ensures z != u && nodes'[u] == nodes[u]
    ensures Shaped(hs, nodes', s) && Settled(hs, b, s, nodes') && Relaxed(hs, b, nodes')
    ensures DoneFirst(nodes') && Lowest(nodes', u) && Bounded(nodes', count + 1, MaxWeight(|hs|))
  {
    ArcWeight(hs, b, u, k, z);
    UpdateBounded(nodes, count, MaxWeight(|hs|), u, z, Cost(hs, b, u, k), nodes');
    UpdateOrder(hs, b, s, nodes, u, z, nodes[u].distance + Cost(hs, b, u, k), nodes');
  }

  /** The queue, the parent links and the relaxed prefix survive the update
      of `z`. */
  lemma {:induction false} RelaxLinks(hs: seq<Host>, b: Adjacency, s: nat, nodes: Nodes, queue: seq<nat>, u: nat,
                                      order: seq<nat>, count: nat, k: nat, z: nat, nodes': Nodes, queue': seq<nat>)
    requires |b| == MaxNetworkSize && |nodes| == |hs| && u < |hs| && z < |hs| && k < |b[hs[u].id]|
    requires DistinctHosts(hs) && WeightsBounded(hs, b) && Shaped(hs, nodes, s)
    requires Queued(nodes, queue, Some(u), count) && Tree(hs, b, s, nodes, order, count, Some(u))
    requires nodes[u].parent.Some? ==> nodes[u].parent.value < |nodes| && nodes[nodes[u].parent.value].done
    requires RelaxedFrom(hs, b, nodes, u, k) && Arc(hs, b, u, k, z)
    requires !nodes[z].done && nodes[u].distance + Cost(hs, b, u, k) < nodes[z].distance
    requires nodes' == nodes[z := nodes[z].(distance := nodes[u].distance + Cost(hs, b, u, k), parent := Some(u))]
    requires queue' == RemoveFirst(queue, z) + [z]
    ensures Queued(nodes', queue', Some(u), count) && Tree(hs, b, s, nodes', order, count, Some(u))
    ensures nodes'[u].parent.Some? ==> nodes'[u].parent.value < |nodes'| && nodes'[nodes'[u].parent.value].done
    ensures RelaxedFrom(hs, b, nodes', u, k + 1)
  {
    ArcWeight(hs, b, u, k, z);
    assert z != s && z != u;
    RelaxQueued(nodes, nodes', queue, u, count, z, queue');
    UpdateTree(hs, b, s, nodes, order, count, u, k, z, nodes');
    UpdateRelaxedFrom(hs, b, nodes, u, k, z, nodes');
  }

  /** Lowering a node not done, to no less than `u`'s distance, keeps the
      facts about finished nodes and keeps `u` first. */
  lemma UpdateOrder(hs: seq<Host>, b: Adjacency, s: nat, nodes: Nodes, u: nat, z: nat, d: int, nodes': Nodes)
    requires |b| == MaxNetworkSize && Shaped(hs, nodes, s) && u < |nodes| && z < |nodes| && z != u
    requires Settled(hs, b, s, nodes) && Relaxed(hs, b, nodes) && DoneFirst(nodes) && Lowest(nodes, u)
    requires !nodes[z].done && !nodes[u].done && nodes[u].distance <= d < nodes[z].distance
    requires nodes' == nodes[z := nodes[z].(distance := d, parent := Some(u))]
    ensures Shaped(hs, nodes', s)
    ensures Settled(hs, b, s, nodes')
    ensures Relaxed(hs, b, nodes')
    ensures DoneFirst(nodes')
    ensures Lowest(nodes', u)
  {
  }

  lemma UpdateBounded(nodes: Nodes, count: nat, w: int, u: nat, z: nat, c: int, nodes': Nodes)
    requires u < |nodes| && z < |nodes| && Bounded(nodes, count + 1, w)
    requires nodes[u].distance <= count * w && c <= w
    requires nodes' == nodes[z := nodes[z].(distance := nodes[u].distance + c, parent := Some(u))]
    ensures Bounded(nodes', count + 1, w)
  {
    assert (count + 1) * w == count * w + w;
  }

  lemma UpdateRelaxedFrom(hs: seq<Host>, b: Adjacency, nodes: Nodes, u: nat, k: nat, z: nat, nodes': Nodes)
    requires |b| == MaxNetworkSize && DistinctHosts(hs) && u < |nodes| && z < |nodes| && z != u
    requires RelaxedFrom(hs, b, nodes, u, k) && Arc(hs, b, u, k, z)
    requires nodes[u].distance + Cost(hs, b, u, k) < nodes[z].distance
    requires nodes' == nodes[z := nodes[z].(distance := nodes[u].distance + Cost(hs, b, u, k), parent := Some(u))]
    ensures RelaxedFrom(hs, b, nodes', u, k + 1)
  {
    forall j: nat, z': nat | j < k + 1 && Arc(hs, b, u, j, z') && z' < |nodes'|
      ensures nodes'[z'].distance <= nodes'[u].distance + Cost(hs, b, u, j)
    {
      if j == k {
        ArcTarget(hs, b, u, k, z, z');
      }
    }
  }

  lemma UpdateTree(hs: seq<Host>, b: Adjacency, s: nat, nodes: Nodes, order: seq<nat>, count: nat,
                   u: nat, k: nat, z: nat, nodes': Nodes)
    requires |b| == MaxNetworkSize && Tree(hs, b, s, nodes, order, count, Some(u))
    requires u < |nodes| && !nodes[u].done && z < |nodes| && z != u && z != s && !nodes[z].done
    requires Arc(hs, b, u, k, z) && nodes[u].distance + Cost(hs, b, u, k) < nodes[z].distance
    requires nodes[z].distance <= Infinity
    requires nodes' == nodes[z := nodes[z].(distance := nodes[u].distance + Cost(hs, b, u, k), parent := Some(u))]
    ensures Tree(hs, b, s, nodes', order, count, Some(u))
  {
    forall x | 0 <= x < |nodes'|
      ensures Linked(hs, b, s, nodes', order, Some(u), x)
    {
      if x == z {
        assert Arc(hs, b, u, k, z) && nodes'[z].distance == nodes'[u].distance + Cost(hs, b, u, k);
        assert Tight(hs, b, nodes', u, z);
      } else {
        assert Linked(hs, b, s, nodes, order, Some(u), x);
        if nodes[x].parent.Some? {
          TightFrame(hs, b, nodes, nodes', nodes[x].parent.value, x);
        }
      }
    }
  }

  lemma {:induction false} RelaxQueued(nodes: Nodes, nodes': Nodes, queue: seq<nat>, u: nat, count: nat, z: nat,
                                       queue': seq<nat>)
    requires Queued(nodes, queue, Some(u), count) && z < |nodes| && z != u && !nodes[z].done
    requires |nodes'| == |nodes| && forall x :: 0 <= x < |nodes| ==> nodes'[x].done == nodes[x].done
    requires queue' == RemoveFirst(queue, z) + [z]
    ensures Queued(nodes', queue', Some(u), count)
  {
    assert multiset(queue)[z] == 1;
    assert multiset(queue') == multiset(queue);
    assert |queue'| == |multiset(queue')| == |multiset(queue)| == |queue|;
    forall i | 0 <= i < |queue'|
      ensures queue'[i] < |nodes'|
    {
      assert queue'[i] in multiset(queue');
      assert queue'[i] in queue;
    }
  }

  // ---------------------------------------------------------------------------
  // Finishing the polled node and polling the next.

  /** Once all connections of `u` are relaxed, marking it done and polling
      the queue's first node restores the loop invariant. */
  lemma FinishTurn(hs: seq<Host>, b: Adjacency, s: nat, nodes: Nodes, queue: seq<nat>, u: nat,
               order: seq<nat>, count: nat, next: Option<nat>, rest: seq<nat>)
    requires |b| == MaxNetworkSize && u < |hs| && Relaxing(hs, b, s, nodes, queue, u, order, count)
    requires RelaxedFrom(hs, b, nodes, u, |b[hs[u].id]|)
    requires next.None? ==> queue == [] && rest == queue
    requires next.Some? ==> next.value in queue && multiset(rest) == multiset(queue) - multiset{next.value}
    requires next.Some? ==> Minimal(nodes[u := nodes[u].(done := true)], next.value, queue)
    ensures Frontier(hs, b, s, nodes[u := nodes[u].(done := true)], rest, next, order[u := count], count + 1)
  {
    var nodes' := nodes[u := nodes[u].(done := true)];
    var order' := order[u := count];
    FinishRelaxed(hs, b, s, nodes, queue, u, order, count);
    FinishTree(hs, b, s, nodes, queue, u, order, count);
    FinishQueued(nodes, nodes', queue, u, count, next, rest);
    assert Bounded(nodes', count + 1, MaxWeight(|hs|));
    assert Settled(hs, b, s, nodes');
    assert DoneFirst(nodes');
    if next.Some? {
      forall i | 0 <= i < |rest|
        ensures CompareTo(nodes'[next.value], nodes'[rest[i]]) <= 0
      {
        assert rest[i] in multiset(rest);
        assert rest[i] in queue;
        var j :| 0 <= j < |queue| && queue[j] == rest[i];
      }
    }
  }

  lemma FinishRelaxed(hs: seq<Host>, b: Adjacency, s: nat, nodes: Nodes, queue: seq<nat>, u: nat,
                      order: seq<nat>, count: nat)
    requires |b| == MaxNetworkSize && u < |hs| && Relaxing(hs, b, s, nodes, queue, u, order, count)
    requires RelaxedFrom(hs, b, nodes, u, |b[hs[u].id]|)
    ensures Relaxed(hs, b, nodes[u := nodes[u].(done := true)])
  {
    var nodes' := nodes[u := nodes[u].(done := true)];
    forall y: nat, t: nat, z: nat | y < |nodes'| && nodes'[y].done && Arc(hs, b, y, t, z) && z < |nodes'|
      ensures nodes'[z].distance <= nodes'[y].distance + Cost(hs, b, y, t)
    {
      if y != u {
        assert nodes[y].done;
      }
    }
  }

  lemma FinishTree(hs: seq<Host>, b: Adjacency, s: nat, nodes: Nodes, queue: seq<nat>, u: nat,
                   order: seq<nat>, count: nat)
    requires |b| == MaxNetworkSize && u < |hs| && Relaxing(hs, b, s, nodes, queue, u, order, count)
    requires RelaxedFrom(hs, b, nodes, u, |b[hs[u].id]|)
    ensures Tree(hs, b, s, nodes[u := nodes[u].(done := true)], order[u := count], count + 1, None)
  {
    var nodes' := nodes[u := nodes[u].(done := true)];
    var order' := order[u := count];
    forall x | 0 <= x < |nodes'|
      ensures Linked(hs, b, s, nodes', order', None, x)
    {
      assert Linked(hs, b, s, nodes, order, Some(u), x);
      if nodes[x].parent.Some? {
        var p := nodes[x].parent.value;
        TightFrame(hs, b, nodes, nodes', p, x);
        if x != u && nodes[x].done {
          assert p != u;
        }
      }
    }
  }

  lemma FinishQueued(nodes: Nodes, nodes': Nodes, queue: seq<nat>, u: nat, count: nat,
                     next: Option<nat>, rest: seq<nat>)
    requires Queued(nodes, queue, Some(u), count)
    requires nodes' == nodes[u := nodes[u].(done := true)]
    requires next.None? ==> queue == [] && rest == queue
    requires next.Some? ==> next.value in queue && multiset(rest) == multiset(queue) - multiset{next.value}
    ensures Queued(nodes', rest, next, count + 1)
  {
    if next.Some? {
      var m := next.value;
      assert |rest| == |multiset(rest)| == |multiset(queue)| - 1 == |queue| - 1;
      forall i | 0 <= i < |rest|
        ensures rest[i] < |nodes'|
      {
        assert rest[i] in multiset(rest);
        assert rest[i] in queue;
      }
      assert m < |nodes| && multiset(queue)[m] == 1;
    }
  }

  // ---------------------------------------------------------------------------
  // Leaving the loop.

  /** When the queue is empty, or its first node is unreached, the loop's
      invariant gives the shortest-path tree. */
  lemma Stop(hs: seq<Host>, b: Adjacency, s: nat, nodes: Nodes, queue: seq<nat>,
             cur: Option<nat>, order: seq<nat>, count: nat)
    requires |b| == MaxNetworkSize && Frontier(hs, b, s, nodes, queue, cur, order, count)
    requires cur.Some? ==> nodes[cur.value].distance == Infinity
    ensures ShortestPathTree(hs, b, s, nodes, order)
  {
    var n := |hs|;
    forall x | 0 <= x < n && !nodes[x].done
      ensures nodes[x].distance == Infinity && count < n
    {
      if cur.Some? && x != cur.value {
        assert multiset(queue)[x] == 1;
        assert x in queue;
        var i :| 0 <= i < |queue| && queue[i] == x;
        assert CompareTo(nodes[cur.value], nodes[queue[i]]) <= 0;
      }
    }
    forall x | 0 <= x < n && !nodes[x].done
      ensures !Reachable(hs, b, s, x)
    {
      Unreached(hs, b, s, nodes, order, count, x);
    }
    forall x | 0 <= x < n
      ensures Linked(hs, b, s, nodes, order, None, x)
    {
    }
    assert Tree(hs, b, s, nodes, order, n, None);
  }

  /** With every unfinished node at `Integer.MAX_VALUE`, relaxations from
      finished nodes show no walk leads to one. */
  lemma Unreached(hs: seq<Host>, b: Adjacency, s: nat, nodes: Nodes, order: seq<nat>, count: nat, x: nat)
    requires |b| == MaxNetworkSize && Routable(hs, b) && Shaped(hs, nodes, s)
    requires Relaxed(hs, b, nodes) && Bounded(nodes, count, MaxWeight(|hs|))
    requires Tree(hs, b, s, nodes, order, count, None) && Settled(hs, b, s, nodes)
    requires forall q :: 0 <= q < |nodes| && !nodes[q].done ==> nodes[q].distance == Infinity && count < |hs|
    requires x < |nodes| && !nodes[x].done
    ensures !Reachable(hs, b, s, x)
  {
    if Reachable(hs, b, s, x) {
      var ns, ts :| WalkBetween(hs, b, s, x, ns, ts);
      forall k | 0 <= k < |ns|
        ensures ns[k] < |nodes|
      {
        if k < |ts| {
          assert Arc(hs, b, ns[k], ts[k], ns[k + 1]);
        }
      }
      var j := FirstNotDone(nodes, ns, |ts|);
      assert j > 0;
      var y, t, z := ns[j - 1], ts[j - 1], ns[j];
      assert Arc(hs, b, y, t, z);
      ArcWeight(hs, b, y, t, z);
      StepsFit(|hs|, count);
    }
  }

  // ---------------------------------------------------------------------------
  // Reading the tree.

  /** Parent links point to nodes finished earlier, so following them ends. */
  ghost predicate Ranked(nodes: Nodes, order: seq<nat>)
  {
    |order| == |nodes| &&
    forall x :: 0 <= x < |nodes| && nodes[x].parent.Some? ==>
      nodes[x].parent.value < |nodes| && order[nodes[x].parent.value] < order[x]
  }

  /** The node `setupTables` lists as the next hop from `s` towards `x`: the
      ancestor of `x` whose parent is `s` (`x` itself when its parent is). */
  ghost function NextHop(nodes: Nodes, order: seq<nat>, s: nat, x: nat): (r: Option<nat>)
    requires Ranked(nodes, order) && x < |nodes|
    ensures r.Some? ==> r.value < |nodes|
    decreases order[x]
  {
    match nodes[x].parent
    case None => None
    case Some(p) => if p == s then Some(x) else NextHop(nodes, order, s, p)
  }

  lemma TreeRanked(hs: seq<Host>, b: Adjacency, s: nat, nodes: Nodes, order: seq<nat>)
    requires |b| == MaxNetworkSize && ShortestPathTree(hs, b, s, nodes, order)
    ensures Ranked(nodes, order)
  {
    forall x | 0 <= x < |nodes| && nodes[x].parent.Some?
      ensures nodes[x].parent.value < |nodes| && order[nodes[x].parent.value] < order[x]
    {
      assert Linked(hs, b, s, nodes, order, None, x);
    }
  }

  /** The parent links from a finished node `x` back to the start spell a
      walk weighing `x`'s distance, whose second node is the next hop. */
  lemma {:induction false} TreeWalk(hs: seq<Host>, b: Adjacency, s: nat, nodes: Nodes, order: seq<nat>, x: nat)
      returns (ns: seq<nat>, ts: seq<nat>)
    requires |b| == MaxNetworkSize && Shaped(hs, nodes, s) && Tree(hs, b, s, nodes, order, |nodes|, None)
    requires DoneIffReached(nodes) && Ranked(nodes, order)
    requires x < |nodes| && nodes[x].done
    ensures WalkBetween(hs, b, s, x, ns, ts) && Weight(hs, b, ns, ts) == nodes[x].distance
    ensures x != s ==> |ts| > 0 && NextHop(nodes, order, s, x) == Some(ns[1])
    decreases order[x]
  {
    assert Linked(hs, b, s, nodes, order, None, x);
    if x == s {
      ns, ts := [s], [];
    } else {
      var p := nodes[x].parent.value;
      var t :| Arc(hs, b, p, t, x) && nodes[x].distance == nodes[p].distance + Cost(hs, b, p, t);
      if p == s {
        ns, ts := WalkOne(hs, b, s, nodes, order, x, t);
      } else {
        var ns', ts' := TreeWalk(hs, b, s, nodes, order, p);
        ns, ts := WalkExtend(hs, b, s, nodes, order, x, p, t, ns', ts');
      }
    }
  }

  /** A node whose parent is the start is one connection away from it, and
      is its own next hop. */
  lemma WalkOne(hs: seq<Host>, b: Adjacency, s: nat, nodes: Nodes, order: seq<nat>, x: nat, t: nat)
      returns (ns: seq<nat>, ts: seq<nat>)
    requires |b| == MaxNetworkSize && Ranked(nodes, order) && x < |nodes| && s < |nodes|
    requires nodes[x].parent == Some(s) && Arc(hs, b, s, t, x)
    requires nodes[x].distance == nodes[s].distance + Cost(hs, b, s, t) && nodes[s].distance == 0
    ensures WalkBetween(hs, b, s, x, ns, ts) && Weight(hs, b, ns, ts) == nodes[x].distance
    ensures |ts| > 0 && NextHop(nodes, order, s, x) == Some(ns[1])
  {
    ns, ts := [s, x], [t];
    assert ns[..1] == [s] && ts[..0] == [];
  }

  /** Following the link from `x` to its parent `p` extends `p`'s walk by
      one connection and keeps its next hop. */
  lemma WalkExtend(hs: seq<Host>, b: Adjacency, s: nat, nodes: Nodes, order: seq<nat>, x: nat, p: nat, t: nat,
                   ns': seq<nat>, ts': seq<nat>) returns (ns: seq<nat>, ts: seq<nat>)
    requires |b| == MaxNetworkSize && Ranked(nodes, order) && x < |nodes| && p < |nodes| && p != s
    requires nodes[x].parent == Some(p) && Arc(hs, b, p, t, x)
    requires nodes[x].distance == nodes[p].distance + Cost(hs, b, p, t)
    requires WalkBetween(hs, b, s, p, ns', ts') && Weight(hs, b, ns', ts') == nodes[p].distance
    requires |ts'| > 0 && NextHop(nodes, order, s, p) == Some(ns'[1])
    ensures WalkBetween(hs, b, s, x, ns, ts) && Weight(hs, b, ns, ts) == nodes[x].distance
    ensures |ts| > 0 && NextHop(nodes, order, s, x) == Some(ns[1])
  {
    WalkSnoc(hs, b, ns', ts', t, x);
    ns, ts := ns' + [x], ts' + [t];
    assert ns[1] == ns'[1];
  }

  /** Every node other than the start that the search reached has a next
      hop. */
  lemma {:induction false} NextHopDefined(hs: seq<Host>, b: Adjacency, s: nat, nodes: Nodes, order: seq<nat>, x: nat)
    requires |b| == MaxNetworkSize && Shaped(hs, nodes, s) && Tree(hs, b, s, nodes, order, |nodes|, None)
    requires DoneIffReached(nodes) && Ranked(nodes, order)
    requires x < |nodes|
    ensures NextHop(nodes, order, s, x).Some? <==> x != s && nodes[x].done
    decreases order[x]
  {
    assert Linked(hs, b, s, nodes, order, None, x);
    if nodes[x].parent.Some? {
      var p := nodes[x].parent.value;
      if p != s {
        NextHopDefined(hs, b, s, nodes, order, p);
        assert Linked(hs, b, s, nodes, order, None, p);
      }
    }
  }

  /** The distances of the tree are the lightest walks' weights. */
  lemma Distances(hs: seq<Host>, b: Adjacency, s: nat, nodes: Nodes, order: seq<nat>, x: nat)
    requires |b| == MaxNetworkSize && ShortestPathTree(hs, b, s, nodes, order) && x < |nodes|
    ensures nodes[x].distance < Infinity ==> Distance(hs, b, s, x, nodes[x].distance)
    ensures nodes[x].distance == Infinity <==> !Reachable(hs, b, s, x)
  {
    TreeRanked(hs, b, s, nodes, order);
    if nodes[x].done {
      var ns, ts := TreeWalk(hs, b, s, nodes, order, x);
    }
  }

  /** The next hop towards `x` starts a lightest walk from `s` to `x`, and
      there is one exactly when `x` is another host `s` can reach. */
  lemma NextHopIsFirstHop(hs: seq<Host>, b: Adjacency, s: nat, nodes: Nodes, order: seq<nat>, x: nat)
    requires |b| == MaxNetworkSize && ShortestPathTree(hs, b, s, nodes, order) && Ranked(nodes, order)
    requires x < |nodes|
    ensures NextHop(nodes, order, s, x).Some? <==> x != s && Reachable(hs, b, s, x)
    ensures NextHop(nodes, order, s, x).Some? ==>
      FirstHop(hs, b, s, x, hs[NextHop(nodes, order, s, x).value])
  {
    NextHopDefined(hs, b, s, nodes, order, x);
    Distances(hs, b, s, nodes, order, x);
    if NextHop(nodes, order, s, x).Some? {
      var ns, ts := TreeWalk(hs, b, s, nodes, order, x);
      assert Arc(hs, b, ns[0], ts[0], ns[1]);
    }
  }
}
