/** The router: Dijkstra's algorithm run from every host, each run filling
    the start host's routing table with the next hop towards every host it
    reaches, and the hop-by-hop replay of a message over those tables. A
    `DijkstraNode` is a value in a sequence indexed like the host list, and
    the host-to-node table maps each host to that index. */
module Routing {
  import opened Wrappers
  import opened Chains
  import opened Table
  import opened Hosts
  import opened Graph
  import opened Networks
  import opened Paths
  import opened ShortestPaths

  /** What the host-to-node table holds once the first `i` hosts are
      entered: each of them mapped to its place in the host list. */
  ghost function NodeIndex(hs: seq<Host>, i: nat): (m: map<Host, nat>)
    requires i <= |hs|
  {
    map h | h in hs[..i] :: IndexOf(hs, h)
  }

  /** Entering host `i` adds a new key, at its own place. */
  lemma NodeIndexStep(hs: seq<Host>, i: nat)
    requires DistinctHosts(hs) && i < |hs|
    ensures hs[i] !in NodeIndex(hs, i)
    ensures NodeIndex(hs, i)[hs[i] := i] == NodeIndex(hs, i + 1)
  {
    assert hs[..i + 1] == hs[..i] + [hs[i]];
  }

  /** `setupDijkstras`, with the table of `runDijkstra` it fills: a fresh
      table of 10 slots; for each host in order a node, at distance 0 for
      `startNode` and `Integer.MAX_VALUE` for the others, none done and none
      with a parent; every node is queued and entered in the table. */
  method SetupDijkstras(graph: Network, startNode: Host)
      returns (table: HashTable<Host, nat>, nodes: Nodes, queue: seq<nat>)
    requires graph.Valid() && HostHashesNonNegative(graph.hosts)
    ensures table.Valid() && fresh(table.Repr) && table.hash == HostHash
    ensures table.Contents == NodeIndex(graph.hosts, |graph.hosts|)
    ensures nodes == UnvisitedNodes(graph.hosts, startNode, |graph.hosts|)
    ensures queue == seq(|graph.hosts|, x => x)
  {
    var hs := graph.hosts;
    table := new HashTable<Host, nat>(10, HostHash);
    nodes, queue := [], [];
    assert hs[..0] == [];
    for i := 0 to |hs|
      invariant table.Valid() && fresh(table.Repr) && table.hash == HostHash
      invariant table.Contents == NodeIndex(hs, i)
      invariant nodes == UnvisitedNodes(hs, startNode, i) && queue == seq(i, x => x)
    {
      nodes, queue := SetupHost(table, hs, startNode, i, nodes, queue);
    }
  }

  /** One turn of the loop of `setupDijkstras`: the node for host `i`,
      queued and entered in the table. */
  method SetupHost(table: HashTable<Host, nat>, hs: seq<Host>, startNode: Host, i: nat, nodes: Nodes,
                   queue: seq<nat>) returns (nodes': Nodes, queue': seq<nat>)
    requires DistinctHosts(hs) && HostHashesNonNegative(hs) && i < |hs|
    requires table.Valid() && table.hash == HostHash && table.Contents == NodeIndex(hs, i)
    requires nodes == UnvisitedNodes(hs, startNode, i) && queue == seq(i, x => x)
    modifies table.Repr
    ensures table.Valid() && fresh(table.Repr - old(table.Repr)) && table.hash == HostHash
    ensures table.Contents == NodeIndex(hs, i + 1)
    ensures nodes' == UnvisitedNodes(hs, startNode, i + 1) && queue' == seq(i + 1, x => x)
  {
    var node := hs[i];
    var host := DijkstraNode(node, None, false, Infinity);
    if node == startNode {
      host := host.(distance := 0);
    }
    queue' := queue + [i];
    nodes' := nodes + [host];
    SetupStep(hs, startNode, i);
    NodeIndexStep(hs, i);
    var _ := table.Add(Some(node), Some(i));
  }

  /** One more host extends the nodes and the queue by one. */
  lemma SetupStep(hs: seq<Host>, startNode: Host, i: nat)
    requires i < |hs|
    ensures UnvisitedNodes(hs, startNode, i) + [Unvisited(hs[i], startNode)] == UnvisitedNodes(hs, startNode, i + 1)
    ensures seq(i, x => x) + [i] == seq(i + 1, x => x)
  {
  }

  /** The nodes made for the first `i` hosts. */
  ghost function UnvisitedNodes(hs: seq<Host>, startNode: Host, i: nat): (nodes: Nodes)
    requires i <= |hs|
  {
    seq(i, x requires 0 <= x < i => Unvisited(hs[x], startNode))
  }

  /** A node as `setupDijkstras` makes it for host `h`. */
  function Unvisited(h: Host, startNode: Host): (n: DijkstraNode)
    ensures n.host == h && n.parent.None? && !n.done
    ensures n.distance == 0 <==> h == startNode
    ensures n.distance != 0 ==> n.distance == Infinity
  {
    DijkstraNode(h, None, false, if h == startNode then 0 else Infinity)
  }

  /** The queue as `setupDijkstras` leaves it names every node once. */
  lemma {:induction false} AllQueued(queue: seq<nat>, n: nat)
    requires |queue| == n && forall i :: 0 <= i < |queue| ==> queue[i] == i
    ensures forall x :: 0 <= x < n ==> multiset(queue)[x] == 1
  {
    if n > 0 {
      var front := queue[..n - 1];
      assert queue == front + [n - 1];
      AllQueued(front, n - 1);
      forall x | 0 <= x < n
        ensures multiset(queue)[x] == 1
      {
        if x == n - 1 {
          assert n - 1 !in front;
        }
      }
    }
  }

  /** `queue.poll()`: a node of the queue that `compareTo` puts no later than
      any other (the first such), and the queue without it; None when the
      queue is empty. */
  method Poll(nodes: Nodes, queue: seq<nat>) returns (head: Option<nat>, rest: seq<nat>)
    requires forall i :: 0 <= i < |queue| ==> queue[i] < |nodes|
    requires forall x :: 0 <= x < |nodes| ==> 0 <= nodes[x].distance <= Infinity
    ensures head.None? <==> queue == []
    ensures head.None? ==> rest == []
    ensures head.Some? ==> head.value in queue && multiset(rest) == multiset(queue) - multiset{head.value}
    ensures head.Some? ==> forall i :: 0 <= i < |queue| ==> CompareTo(nodes[head.value], nodes[queue[i]]) <= 0
  {
    if queue == [] {
      return None, [];
    }
    var m := 0;
    for i := 1 to |queue|
      invariant m < i && forall j :: 0 <= j < i ==> CompareTo(nodes[queue[m]], nodes[queue[j]]) <= 0
    {
      if CompareTo(nodes[queue[i]], nodes[queue[m]]) < 0 {
        forall j | 0 <= j < i
          ensures CompareTo(nodes[queue[i]], nodes[queue[j]]) <= 0
        {
          CompareToTransitive(nodes[queue[i]], nodes[queue[m]], nodes[queue[j]]);
        }
        m := i;
      } else {
        CompareToTotal(nodes[queue[m]], nodes[queue[i]]);
      }
    }
    head, rest := Some(queue[m]), queue[..m] + queue[m + 1..];
    assert queue == queue[..m] + [queue[m]] + queue[m + 1..];
  }

  /** `compareTo` orders nodes with distances in range consistently. */
  lemma CompareToTransitive(a: DijkstraNode, b: DijkstraNode, c: DijkstraNode)
    requires 0 <= a.distance <= Infinity && 0 <= b.distance <= Infinity && 0 <= c.distance <= Infinity
    requires CompareTo(a, b) < 0 && CompareTo(b, c) <= 0
    ensures CompareTo(a, c) <= 0
  {
  }

  /** ... and totally. */
  lemma CompareToTotal(a: DijkstraNode, b: DijkstraNode)
    requires 0 <= a.distance <= Infinity && 0 <= b.distance <= Infinity
    requires !(CompareTo(b, a) < 0)
    ensures CompareTo(a, b) <= 0
  {
  }

  // ---------------------------------------------------------------------------
  // The loop of `runDijkstra`.

  /** What the inner loop of `runDijkstra` does with the `k`-th connection
      of the polled node `u`, which leads to node `z`: when `z` is not done
      and the cost through `u` is lower, `z` is taken out of the queue, gets
      that cost as distance and `u` as parent, and is put back in. */
  ghost function Relax(hs: seq<Host>, b: Adjacency, nodes: Nodes, queue: seq<nat>, u: nat, k: nat, z: nat):
    (r: (Nodes, seq<nat>))
    requires |b| == MaxNetworkSize && |nodes| == |hs| && u < |hs| && z < |hs| && k < |b[hs[u].id]|
  {
    if !nodes[z].done && nodes[u].distance + Cost(hs, b, u, k) < nodes[z].distance then
      (nodes[z := nodes[z].(distance := nodes[u].distance + Cost(hs, b, u, k), parent := Some(u))],
       RemoveFirst(queue, z) + [z])
    else (nodes, queue)
  }

  /** Relaxing the `k`-th connection keeps the state of the inner loop and
      adds that connection to those relaxed. */
  lemma RelaxPreserves(hs: seq<Host>, b: Adjacency, s: nat, nodes: Nodes, queue: seq<nat>, u: nat,
                       order: seq<nat>, count: nat, k: nat, z: nat)
    requires |b| == MaxNetworkSize && Relaxing(hs, b, s, nodes, queue, u, order, count)
    requires RelaxedFrom(hs, b, nodes, u, k) && Arc(hs, b, u, k, z)
    ensures Relaxing(hs, b, s, Relax(hs, b, nodes, queue, u, k, z).0, Relax(hs, b, nodes, queue, u, k, z).1,
                     u, order, count)
    ensures RelaxedFrom(hs, b, Relax(hs, b, nodes, queue, u, k, z).0, u, k + 1)
  {
    var r := Relax(hs, b, nodes, queue, u, k, z);
    if r.0 == nodes && r.1 == queue {
      RelaxSkip(hs, b, nodes, u, k, z);
    } else {
      RelaxUpdate(hs, b, s, nodes, queue, u, order, count, k, z, r.0, r.1);
    }
  }

  /** The body of the inner loop of `runDijkstra` for the `k`-th connection
      `e` of the polled node `u`: find the node on its other side, work out
      the cost through `u`, and update. */
  method RelaxEdge(graph: Network, table: HashTable<Host, nat>, nodes: Nodes, queue: seq<nat>, u: nat,
                   e: Connection, k: nat) returns (nodes': Nodes, queue': seq<nat>, z: nat)
    requires graph.Valid() && HostHashesNonNegative(graph.hosts)
    requires Closed(graph.hosts, graph.Lists()) && WeightsBounded(graph.hosts, graph.Lists())
    requires table.Valid() && table.hash == HostHash && table.Contents == NodeIndex(graph.hosts, |graph.hosts|)
    requires |nodes| == |graph.hosts| && u < |nodes| && nodes[u].host == graph.hosts[u]
    requires 0 <= nodes[u].distance <= Infinity - 1 - MaxWeight(|nodes|)
    requires k < |graph.Lists()[graph.hosts[u].id]| && e == graph.Lists()[graph.hosts[u].id][k].value
    ensures Arc(graph.hosts, graph.Lists(), u, k, z)
    ensures (nodes', queue') == Relax(graph.hosts, graph.Lists(), nodes, queue, u, k, z)
  {
    ghost var hs, b := graph.hosts, graph.Lists();
    z := OtherEnd(graph, table, u, nodes[u].host, e, k);
    ArcWeight(hs, b, u, k, z);
    var newCost := Wrap32(nodes[u].distance + e.weight);
    assert newCost == nodes[u].distance + Cost(hs, b, u, k);
    if !nodes[z].done && newCost < nodes[z].distance {
      queue' := RemoveFirst(queue, z);
      nodes' := nodes[z := nodes[z].(distance := newCost, parent := Some(u))];
      queue' := queue' + [z];
    } else {
      nodes', queue' := nodes, queue;
    }
  }

  /** `hostToDijkstraNode.get(graph.getOpposite(v, e))` for the `k`-th
      connection `e` of host `v`, the `u`-th host: the node the connection
      leads to. */
  method OtherEnd(graph: Network, table: HashTable<Host, nat>, u: nat, v: Host, e: Connection, k: nat)
      returns (z: nat)
    requires graph.Valid() && HostHashesNonNegative(graph.hosts) && Closed(graph.hosts, graph.Lists())
    requires table.Valid() && table.hash == HostHash && table.Contents == NodeIndex(graph.hosts, |graph.hosts|)
    requires u < |graph.hosts| && v == graph.hosts[u]
    requires k < |graph.Lists()[v.id]| && e == graph.Lists()[v.id][k].value
    ensures Arc(graph.hosts, graph.Lists(), u, k, z)
  {
    ghost var hs, b := graph.hosts, graph.Lists();
    ArcExists(hs, b, u, k);
    var n := graph.GetOpposite(v, e);
    assert hs[..|hs|] == hs;
    var found := table.Get(n);
    z := found.value;
  }

  /** The inner loop of `runDijkstra`: the connections out of the polled
      node `u` relaxed one by one, in list order. */
  method RelaxEdges(graph: Network, table: HashTable<Host, nat>, nodes0: Nodes, queue0: seq<nat>, u: nat,
                    ghost s: nat, ghost order: seq<nat>, ghost count: nat) returns (nodes: Nodes, queue: seq<nat>)
    requires graph.Valid() && HostHashesNonNegative(graph.hosts)
    requires table.Valid() && table.hash == HostHash && table.Contents == NodeIndex(graph.hosts, |graph.hosts|)
    requires Relaxing(graph.hosts, graph.Lists(), s, nodes0, queue0, u, order, count)
    ensures Relaxing(graph.hosts, graph.Lists(), s, nodes, queue, u, order, count)
    ensures RelaxedFrom(graph.hosts, graph.Lists(), nodes, u, |graph.Lists()[graph.hosts[u].id]|)
  {
    ghost var hs, b := graph.hosts, graph.Lists();
    RoomForOne(hs, b, s, nodes0, queue0, u, order, count);
    var edges := graph.GetOutEdges(nodes0[u].host);
    nodes, queue := nodes0, queue0;
    for k := 0 to |edges|
      invariant Relaxing(hs, b, s, nodes, queue, u, order, count) && RelaxedFrom(hs, b, nodes, u, k)
    {
      RoomForOne(hs, b, s, nodes, queue, u, order, count);
      ghost var before := (nodes, queue);
      var z;
      nodes, queue, z := RelaxEdge(graph, table, nodes, queue, u, edges[k], k);
      RelaxPreserves(hs, b, s, before.0, before.1, u, order, count, k, z);
    }
  }

  /** The polled node is host `u`'s, and one more connection from it stays
      below `Integer.MAX_VALUE`. */
  lemma RoomForOne(hs: seq<Host>, b: Adjacency, s: nat, nodes: Nodes, queue: seq<nat>, u: nat,
                   order: seq<nat>, count: nat)
    requires |b| == MaxNetworkSize && Relaxing(hs, b, s, nodes, queue, u, order, count)
    ensures Closed(hs, b) && WeightsBounded(hs, b)
    ensures |nodes| == |hs| && u < |nodes| && nodes[u].host == hs[u] && nodes[u].host.id == hs[u].id
    ensures 0 <= nodes[u].distance <= Infinity - 1 - MaxWeight(|nodes|)
  {
    var w := MaxWeight(|hs|);
    StepsFit(|hs|, count);
    assert (count + 1) * w == count * w + w;
  }

  /** The main loop of `runDijkstra`: while the polled node has been
      reached, settle it and poll the next. */
  method Search(graph: Network, table: HashTable<Host, nat>, nodes0: Nodes, queue0: seq<nat>,
                cur0: Option<nat>, ghost s: nat, ghost order0: seq<nat>) returns (nodes: Nodes, ghost order: seq<nat>)
    requires graph.Valid() && HostHashesNonNegative(graph.hosts)
    requires table.Valid() && table.hash == HostHash && table.Contents == NodeIndex(graph.hosts, |graph.hosts|)
    requires Frontier(graph.hosts, graph.Lists(), s, nodes0, queue0, cur0, order0, 0)
    ensures ShortestPathTree(graph.hosts, graph.Lists(), s, nodes, order)
  {
    ghost var hs, b := graph.hosts, graph.Lists();
    nodes, order := nodes0, order0;
    var queue, currMin := queue0, cur0;
    ghost var count := 0;
    while currMin.Some? && nodes[currMin.value].distance != Infinity
      invariant Frontier(hs, b, s, nodes, queue, currMin, order, count)
      decreases |nodes| - count
    {
      var u := currMin.value;
      nodes, queue, currMin := Settle(graph, table, nodes, queue, u, s, order, count);
      order, count := order[u := count], count + 1;
    }
    Stop(hs, b, s, nodes, queue, currMin, order, count);
  }

  /** One turn of the main loop of `runDijkstra` for the polled node `u`:
      relax its connections, mark it done and poll the next node. */
  method Settle(graph: Network, table: HashTable<Host, nat>, nodes0: Nodes, queue0: seq<nat>, u: nat,
                ghost s: nat, ghost order: seq<nat>, ghost count: nat)
      returns (nodes: Nodes, queue: seq<nat>, next: Option<nat>)
    requires graph.Valid() && HostHashesNonNegative(graph.hosts)
    requires table.Valid() && table.hash == HostHash && table.Contents == NodeIndex(graph.hosts, |graph.hosts|)
    requires Frontier(graph.hosts, graph.Lists(), s, nodes0, queue0, Some(u), order, count)
    requires nodes0[u].distance != Infinity
    ensures Frontier(graph.hosts, graph.Lists(), s, nodes, queue, next, order[u := count], count + 1)
  {
    ghost var hs, b := graph.hosts, graph.Lists();
    Expand(hs, b, s, nodes0, queue0, u, order, count);
    var relaxed, rest := RelaxEdges(graph, table, nodes0, queue0, u, s, order, count);
    nodes := relaxed[u := relaxed[u].(done := true)];
    PollReady(hs, b, s, relaxed, rest, u, order, count, nodes);
    next, queue := Poll(nodes, rest);
    FinishTurn(hs, b, s, relaxed, rest, u, order, count, next, queue);
  }

  /** Marking the polled node done leaves the queue and the distances as
      `poll` needs them. */
  lemma PollReady(hs: seq<Host>, b: Adjacency, s: nat, nodes: Nodes, queue: seq<nat>, u: nat,
                  order: seq<nat>, count: nat, nodes': Nodes)
    requires |b| == MaxNetworkSize && Relaxing(hs, b, s, nodes, queue, u, order, count)
    requires nodes' == nodes[u := nodes[u].(done := true)]
    ensures forall i :: 0 <= i < |queue| ==> queue[i] < |nodes'|
    ensures forall x :: 0 <= x < |nodes'| ==> 0 <= nodes'[x].distance <= Infinity
  {
  }

  // ---------------------------------------------------------------------------
  // `setupTables`.

  /** `getRoutingTable().add(host, hop)`. */
  method Enter(rt: HashTable<Host, Host>, host: Host, hop: Host)
    requires rt.Valid() && rt.hash == HostHash && HostHash(host) >= 0
    modifies rt.Repr
    ensures rt.Valid() && fresh(rt.Repr - old(rt.Repr)) && rt.hash == HostHash
    ensures rt.Contents == Learn(old(rt.Contents), host, Some(hop))
  {
    var _ := rt.Add(Some(host), Some(hop));
  }

  /** The next hop from node `start` towards node `x`, as a host. */
  ghost function HopOf(nodes: Nodes, order: seq<nat>, start: nat, x: nat): (hop: Option<Host>)
    requires Ranked(nodes, order) && x < |nodes|
  {
    match NextHop(nodes, order, start, x)
    case None => None
    case Some(y) => Some(nodes[y].host)
  }

  /** The next hops towards every node. */
  ghost function Hops(nodes: Nodes, order: seq<nat>, start: nat): (hops: seq<Option<Host>>)
    requires Ranked(nodes, order)
    ensures |hops| == |nodes| && forall x :: 0 <= x < |nodes| ==> hops[x] == HopOf(nodes, order, start, x)
  {
    seq(|nodes|, x requires 0 <= x < |nodes| => HopOf(nodes, order, start, x))
  }

  /** `add(host, hop)` on a routing table holding `m`, when there is a hop:
      a destination already in the table keeps its next hop. */
  function Learn(m: map<Host, Host>, host: Host, hop: Option<Host>): (m': map<Host, Host>)
    ensures host !in m && hop.Some? ==> m' == m[host := hop.value]
    ensures host in m || hop.None? ==> m' == m
  {
    if hop.None? || host in m then m else m[host := hop.value]
  }

  /** The body of the loop of `setupTables` for `host`, node `x`: follow
      parent links from `x` until the one whose parent is the start node
      `start` and enter it as the next hop towards `host`; nothing when the
      links end first. */
  method AddRoute(rt: HashTable<Host, Host>, host: Host, nodes: Nodes, ghost order: seq<nat>, start: nat, x: nat,
                  ghost hop: Option<Host>)
    requires rt.Valid() && rt.hash == HostHash && HostHash(host) >= 0
    requires Ranked(nodes, order) && x < |nodes| && nodes[x].host == host && hop == HopOf(nodes, order, start, x)
    modifies rt.Repr
    ensures rt.Valid() && fresh(rt.Repr - old(rt.Repr)) && rt.hash == HostHash
    ensures rt.Contents == Learn(old(rt.Contents), host, hop)
  {
    var dest := x;
    if nodes[dest].parent.Some? && nodes[dest].parent.value == start {
      Enter(rt, host, host);
    }
    ghost var entered := rt.Contents;
    while nodes[dest].parent.Some? && nodes[dest].parent.value != start
      invariant dest < |nodes| && NextHop(nodes, order, start, dest) == NextHop(nodes, order, start, x)
      invariant dest != x ==> nodes[dest].parent.Some? && nodes[dest].parent.value != start
      invariant rt.Valid() && fresh(rt.Repr - old(rt.Repr)) && rt.hash == HostHash && rt.Contents == entered
      decreases order[dest]
    {
      dest := nodes[dest].parent.value;
      if nodes[dest].parent.None? {
        break;
      }
      if nodes[dest].parent.value == start {
        Enter(rt, host, nodes[dest].host);
        break;
      }
    }
  }

  /** The routing table `m` once `setupTables` has entered the routes of the
      first `i` hosts, in host order, each over those before it. */
  ghost function Entered(hs: seq<Host>, hops: seq<Option<Host>>, i: nat, m: map<Host, Host>): (m': map<Host, Host>)
    requires |hops| == |hs| && i <= |hs|
    decreases i
  {
    if i == 0 then m else Learn(Entered(hs, hops, i - 1, m), hs[i - 1], hops[i - 1])
  }

  /** An entry the table held before is kept. */
  lemma {:induction false} EnteredKeeps(hs: seq<Host>, hops: seq<Option<Host>>, n: nat, m: map<Host, Host>, d: Host)
    requires |hops| == |hs| && n <= |hs| && d in m
    ensures d in Entered(hs, hops, n, m) && Entered(hs, hops, n, m)[d] == m[d]
    decreases n
  {
    if n > 0 {
      EnteredKeeps(hs, hops, n - 1, m, d);
    }
  }

  /** A destination the table did not hold is entered only for a host among
      the first `n`. */
  lemma {:induction false} EnteredOnlyHosts(hs: seq<Host>, hops: seq<Option<Host>>, n: nat, m: map<Host, Host>,
                                            d: Host)
    requires |hops| == |hs| && n <= |hs| && d in Entered(hs, hops, n, m) && d !in m
    ensures d in hs[..n]
    decreases n
  {
    assert n > 0;
    assert hs[..n] == hs[..n - 1] + [hs[n - 1]];
    if d != hs[n - 1] {
      EnteredOnlyHosts(hs, hops, n - 1, m, d);
    }
  }

  /** A destination that is none of the first `n` hosts is as in the table
      before. */
  lemma {:induction false} EnteredOther(hs: seq<Host>, hops: seq<Option<Host>>, n: nat, m: map<Host, Host>, d: Host)
    requires |hops| == |hs| && n <= |hs| && d !in hs[..n]
    ensures d in Entered(hs, hops, n, m) <==> d in m
    ensures d in m ==> Entered(hs, hops, n, m)[d] == m[d]
    decreases n
  {
    if n > 0 {
      assert hs[..n] == hs[..n - 1] + [hs[n - 1]];
      EnteredOther(hs, hops, n - 1, m, d);
    }
  }

  /** Host `x`, one of the first `n` and absent from the table before, is
      entered exactly when it has a hop, with that hop. */
  lemma {:induction false} EnteredHost(hs: seq<Host>, hops: seq<Option<Host>>, n: nat, m: map<Host, Host>, x: nat)
    requires |hops| == |hs| && n <= |hs| && DistinctHosts(hs) && x < n && hs[x] !in m
    ensures hs[x] in Entered(hs, hops, n, m) <==> hops[x].Some?
    ensures hops[x].Some? ==> Entered(hs, hops, n, m)[hs[x]] == hops[x].value
    decreases n
  {
    if x == n - 1 {
      EnteredOther(hs, hops, x, m, hs[x]);
    } else {
      EnteredHost(hs, hops, n - 1, m, x);
    }
  }

  /** What a run from host `s` leaves in a routing table that held `m0`: the
      old entries stay; a host the table did not hold gets an entry exactly
      when it is not `s` and `s` reaches it, and that entry is the second
      host of a lightest walk to it; nothing else is added. */
  ghost predicate Routed(hs: seq<Host>, b: Adjacency, s: nat, m0: map<Host, Host>, m: map<Host, Host>)
    requires |b| == MaxNetworkSize
  {
    (forall d {:trigger Known(m0, d)} :: d in m0 ==> d in m && m[d] == m0[d]) &&
    (forall d {:trigger Known(m, d)} :: d in m && d !in m0 ==> d in hs) &&
    (forall x {:trigger HostAt(hs, x)} :: 0 <= x < |hs| && hs[x] !in m0 ==>
       (hs[x] in m <==> x != s && Reachable(hs, b, s, x)) &&
       (hs[x] in m ==> FirstHop(hs, b, s, x, m[hs[x]])))
  }

  /** `d` has an entry in the routing table `m`. Named apart, like `HostAt`. */
  ghost predicate Known(m: map<Host, Host>, d: Host) { d in m }

  /** `x` is a position of the host list `hs`. Named apart so that what a
      routing table says of a host is looked up only where a proof asks for
      it: the walks it names hold further hosts. */
  ghost predicate HostAt(hs: seq<Host>, x: int) { 0 <= x < |hs| }

  /** The table `setupTables` fills from a tree of lightest walks holds the
      first hops of those walks. */
  lemma RoutesLearned(hs: seq<Host>, b: Adjacency, s: nat, nodes: Nodes, order: seq<nat>, m0: map<Host, Host>)
    requires |b| == MaxNetworkSize && ShortestPathTree(hs, b, s, nodes, order) && Ranked(nodes, order)
    ensures Routed(hs, b, s, m0, Entered(hs, Hops(nodes, order, s), |hs|, m0))
  {
    var hops := Hops(nodes, order, s);
    var m := Entered(hs, hops, |hs|, m0);
    assert hs[..|hs|] == hs;
    forall d | d in m0
      ensures d in m && m[d] == m0[d]
    {
      EnteredKeeps(hs, hops, |hs|, m0, d);
    }
    forall d | d in m && d !in m0
      ensures d in hs
    {
      EnteredOnlyHosts(hs, hops, |hs|, m0, d);
    }
    forall x | 0 <= x < |hs| && hs[x] !in m0
      ensures hs[x] in m <==> x != s && Reachable(hs, b, s, x)
      ensures hs[x] in m ==> FirstHop(hs, b, s, x, m[hs[x]])
    {
      EnteredHost(hs, hops, |hs|, m0, x);
      NextHopIsFirstHop(hs, b, s, nodes, order, x);
    }
  }

  /** `setupTables`: for every host, in host order, the next hop from
      `startNode` towards it, when there is one, is entered in `startNode`'s
      routing table. */
  method SetupTables(graph: Network, startNode: Host, table: HashTable<Host, nat>, nodes: Nodes,
                     ghost order: seq<nat>)
    requires graph.Valid() && HostHashesNonNegative(graph.hosts) && startNode in graph.hosts
    requires table.Valid() && table.hash == HostHash && table.Contents == NodeIndex(graph.hosts, |graph.hosts|)
    requires |nodes| == |graph.hosts| && forall x :: 0 <= x < |nodes| ==> nodes[x].host == graph.hosts[x]
    requires Ranked(nodes, order)
    requires startNode.routingTable.Valid() && startNode.routingTable.hash == HostHash
    requires graph !in startNode.routingTable.Repr && table.Repr !! startNode.routingTable.Repr
    modifies startNode.routingTable.Repr
    ensures startNode.routingTable.Valid() && startNode.routingTable.hash == HostHash
    ensures fresh(startNode.routingTable.Repr - old(startNode.routingTable.Repr))
    ensures startNode.routingTable.Contents ==
      Entered(graph.hosts, Hops(nodes, order, IndexOf(graph.hosts, startNode)), |graph.hosts|,
              old(startNode.routingTable.Contents))
  {
    var hs := graph.hosts;
    assert hs[..|hs|] == hs;
    var start := table.Find(startNode).value;
    var dests := NodesOf(table, hs);
    RouteAll(startNode.routingTable, hs, nodes, order, start, dests);
  }

  /** `table.get(host)` for every host, in host order: the node index of each. */
  function NodesOf(table: HashTable<Host, nat>, hs: seq<Host>): (dests: seq<nat>)
    requires DistinctHosts(hs) && HostHashesNonNegative(hs)
    requires table.Valid() && table.hash == HostHash && table.Contents == NodeIndex(hs, |hs|)
    reads table, table.Repr
    ensures |dests| == |hs| && forall x :: 0 <= x < |hs| ==> dests[x] == x
  {
    assert hs[..|hs|] == hs;
    assert forall x | 0 <= x < |hs| :: IndexOf(hs, hs[x]) == x by {
      forall x | 0 <= x < |hs|
        ensures IndexOf(hs, hs[x]) == x
      {
        IndexOfDistinct(hs, x);
      }
    }
    seq(|hs|, x requires 0 <= x < |hs| && table.Valid() && table.hash(hs[x]) >= 0 &&
                         table.Find(hs[x]).Some? reads table, table.Repr =>
      table.Find(hs[x]).value)
  }

  /** The loop of `setupTables` over the hosts `hs`, from node `start`,
      where `dests[i]` is the node of host `i`. */
  method RouteAll(rt: HashTable<Host, Host>, hs: seq<Host>, nodes: Nodes, ghost order: seq<nat>, start: nat,
                  dests: seq<nat>)
    requires HostHashesNonNegative(hs)
    requires |dests| == |hs| && forall x :: 0 <= x < |hs| ==> dests[x] == x
    requires |nodes| == |hs| && (forall x :: 0 <= x < |nodes| ==> nodes[x].host == hs[x]) && Ranked(nodes, order)
    requires rt.Valid() && rt.hash == HostHash
    modifies rt.Repr
    ensures rt.Valid() && rt.hash == HostHash && fresh(rt.Repr - old(rt.Repr))
    ensures rt.Contents == Entered(hs, Hops(nodes, order, start), |hs|, old(rt.Contents))
  {
    RouteFrom(rt, hs, nodes, order, start, dests, Hops(nodes, order, start), 0, rt.Contents);
  }

  /** The iterations of the loop of `setupTables` from host `i` on, once the
      routes of the first `i` hosts are in the table (started from `m0`). */
  method RouteFrom(rt: HashTable<Host, Host>, hs: seq<Host>, nodes: Nodes, ghost order: seq<nat>, start: nat,
                   dests: seq<nat>, ghost hops: seq<Option<Host>>, i: nat, ghost m0: map<Host, Host>)
    requires HostHashesNonNegative(hs)
    requires |dests| == |hs| && forall x :: 0 <= x < |hs| ==> dests[x] == x
    requires |nodes| == |hs| && (forall x :: 0 <= x < |nodes| ==> nodes[x].host == hs[x]) && Ranked(nodes, order)
    requires hops == Hops(nodes, order, start) && i <= |hs|
    requires rt.Valid() && rt.hash == HostHash && rt.Contents == Entered(hs, hops, i, m0)
    modifies rt.Repr
    ensures rt.Valid() && rt.hash == HostHash && fresh(rt.Repr - old(rt.Repr))
    ensures rt.Contents == Entered(hs, hops, |hs|, m0)
    decreases |hs| - i
  {
    if i < |hs| {
      AddRoute(rt, hs[i], nodes, order, start, dests[i], hops[i]);
      RouteFrom(rt, hs, nodes, order, start, dests, hops, i + 1, m0);
    }
  }

  // ---------------------------------------------------------------------------
  // `runDijkstra` and `start`.

  /** After `setupDijkstras` and the first `poll`, the main loop of
      `runDijkstra` can start: the polled node is a first one in
      `compareTo` order and the queue holds every other node once. */
  lemma SearchReady(hs: seq<Host>, b: Adjacency, s: nat, nodes: Nodes, queue: seq<nat>, head: Option<nat>,
                    rest: seq<nat>)
    requires |b| == MaxNetworkSize && Routable(hs, b) && s < |hs|
    requires nodes == UnvisitedNodes(hs, hs[s], |hs|) && queue == seq(|hs|, x => x)
    requires head.None? <==> queue == []
    requires head.Some? ==> head.value in queue && multiset(rest) == multiset(queue) - multiset{head.value}
    requires head.Some? ==> forall i :: 0 <= i < |queue| ==> CompareTo(nodes[head.value], nodes[queue[i]]) <= 0
    ensures Frontier(hs, b, s, nodes, rest, head, seq(|hs|, x => 0), 0)
  {
    AllQueued(queue, |hs|);
    forall x | 0 <= x < |nodes|
      ensures nodes[x] == DijkstraNode(hs[x], None, false, if x == s then 0 else Infinity)
    {
      if x != s {
        assert hs[x] != hs[s];
      }
    }
    var u := head.value;
    forall i | 0 <= i < |rest|
      ensures rest[i] < |nodes|
    {
      assert rest[i] in multiset(rest);
    }
    assert |multiset(rest)| == |multiset(queue)| - 1;
    FrontierStart(hs, b, s, nodes, rest, head, seq(|hs|, x => 0));
  }

  /** The part of `runDijkstra` before `setupTables`: the nodes set up and
      entered in a fresh table, then the main loop from the first node
      polled. It leaves a tree of lightest walks from
      `startNode`. */
  method SearchFrom(graph: Network, startNode: Host)
      returns (table: HashTable<Host, nat>, nodes: Nodes, ghost order: seq<nat>)
    requires graph.Valid() && HostHashesNonNegative(graph.hosts) && startNode in graph.hosts
    requires Closed(graph.hosts, graph.Lists()) && WeightsBounded(graph.hosts, graph.Lists())
    ensures table.Valid() && fresh(table.Repr) && table.hash == HostHash
    ensures table.Contents == NodeIndex(graph.hosts, |graph.hosts|)
    ensures ShortestPathTree(graph.hosts, graph.Lists(), IndexOf(graph.hosts, startNode), nodes, order)
    ensures Ranked(nodes, order)
  {
    ghost var hs, b := graph.hosts, graph.Lists();
    ghost var s := IndexOf(hs, startNode);
    var queue;
    table, nodes, queue := SetupDijkstras(graph, startNode);
    assert graph.hosts == hs && graph.Lists() == b;
    var currMin, rest := Poll(nodes, queue);
    SearchReady(hs, b, s, nodes, queue, currMin, rest);
    nodes, order := Search(graph, table, nodes, rest, currMin, s, seq(|hs|, x => 0));
    TreeRanked(hs, b, s, nodes, order);
  }

  /** The routing tables of the hosts `hs` are each valid and hash hosts
      by their hash codes. */
  ghost predicate TablesValid(hs: seq<Host>)
    reads set h | h in hs :: h.routingTable
    reads set h, o | h in hs && o in h.routingTable.Repr :: o
  {
    forall x {:trigger HostAt(hs, x)} :: HostAt(hs, x) ==>
      hs[x].routingTable.Valid() && hs[x].routingTable.hash == HostHash
  }

  /** The object sets `rs`, one per routing table, share no object with one
      another, nor with the network `graph` or `router`. */
  ghost predicate Separate(router: object, graph: Network, rs: seq<set<object>>)
  {
    (forall x, y {:trigger Apart(x, y)} :: 0 <= x < |rs| && 0 <= y < |rs| && x != y ==> rs[x] !! rs[y]) &&
    (forall x :: 0 <= x < |rs| ==> {router, graph, graph.storage, graph.storage.storage} !! rs[x])
  }

  /** Hosts `x` and `y` are two. Named apart so that two routing tables are
      compared only where a proof asks for it. */
  ghost predicate Apart(x: int, y: int) { x != y }

  /** Every object of the routing tables of `hs`. */
  ghost function TablesRepr(hs: seq<Host>): (r: set<object>)
    reads set h | h in hs :: h.routingTable
    ensures forall x :: 0 <= x < |hs| ==> hs[x].routingTable.Repr <= r
  {
    set h, o | h in hs && o in h.routingTable.Repr :: o
  }

  /** The objects of the routing tables of `hs`, host by host. */
  ghost function TableReprs(hs: seq<Host>): (r: seq<set<object>>)
    reads set h | h in hs :: h.routingTable
    ensures |r| == |hs| && forall x :: 0 <= x < |hs| ==> r[x] == hs[x].routingTable.Repr
  {
    seq(|hs|, x reads set h | h in hs :: h.routingTable requires 0 <= x < |hs| => hs[x].routingTable.Repr)
  }

  /** What the routing tables of `hs` hold, host by host. */
  ghost function TableContents(hs: seq<Host>): (r: seq<map<Host, Host>>)
    reads set h | h in hs :: h.routingTable
    ensures |r| == |hs| && forall x :: 0 <= x < |hs| ==> r[x] == hs[x].routingTable.Contents
  {
    seq(|hs|, x reads set h | h in hs :: h.routingTable requires 0 <= x < |hs| => hs[x].routingTable.Contents)
  }

  /** Where the loop of `start` stands after its first `n` turns: the
      tables of the first `n` hosts, which held `before` and now hold
      `after`, carry their routes; the other tables hold what they held and
      keep their objects `reprs` (`now` being the objects of every table). */
  ghost predicate TurnsDone(hs: seq<Host>, b: Adjacency, n: nat, before: seq<map<Host, Host>>,
                            after: seq<map<Host, Host>>, reprs: seq<set<object>>, now: seq<set<object>>)
    requires |b| == MaxNetworkSize
  {
    n <= |hs| && |before| == |hs| && |after| == |hs| && |reprs| == |hs| && |now| == |hs| &&
    (forall x :: n <= x < |hs| ==> after[x] == before[x] && now[x] == reprs[x]) &&
    (forall x :: 0 <= x < n ==> Routed(hs, b, x, before[x], after[x]))
  }

  /** One more turn of the loop of `start`: the `n`-th table gets its routes. */
  lemma TurnDone(hs: seq<Host>, b: Adjacency, n: nat, before: seq<map<Host, Host>>,
                 after: seq<map<Host, Host>>, reprs: seq<set<object>>, now: seq<set<object>>,
                 m: map<Host, Host>, r: set<object>)
    requires |b| == MaxNetworkSize && TurnsDone(hs, b, n, before, after, reprs, now) && n < |hs|
    requires Routed(hs, b, n, after[n], m)
    ensures TurnsDone(hs, b, n + 1, before, after[n := m], reprs, now[n := r])
  {
  }

  /** Growing the `i`-th of the object sets `rs` by objects none of the
      others holds, nor the router or the network, keeps them apart. */
  lemma SeparateGrown(router: object, graph: Network, rs: seq<set<object>>, i: nat, r: set<object>)
    requires Separate(router, graph, rs) && i < |rs|
    requires forall x :: 0 <= x < |rs| ==> (r - rs[i]) !! rs[x]
    requires {router, graph, graph.storage, graph.storage.storage} !! (r - rs[i])
    ensures Separate(router, graph, rs[i := r])
  {
    var rs' := rs[i := r];
    forall x, y | 0 <= x < |rs'| && 0 <= y < |rs'| && x != y
      ensures rs'[x] !! rs'[y]
    {
      assert Apart(x, y);
      if x == i {
        assert Apart(i, y);
      } else if y == i {
        assert Apart(x, i);
      }
    }
  }

  /** Routing tables none of whose objects changed are as valid, and hold
      what, they did. */
  twostate lemma KeptTables(hs: seq<Host>)
    requires old(TablesValid(hs))
    requires forall x :: 0 <= x < |hs| ==> unchanged(old(hs[x].routingTable.Repr))
    ensures TablesValid(hs)
    ensures TableReprs(hs) == old(TableReprs(hs)) && TableContents(hs) == old(TableContents(hs))
  {
    forall x | 0 <= x < |hs|
      ensures hs[x].routingTable.Valid() && hs[x].routingTable.hash == HostHash
      ensures hs[x].routingTable.Repr == old(hs[x].routingTable.Repr)
      ensures hs[x].routingTable.Contents == old(hs[x].routingTable.Contents)
    {
      assert HostAt(hs, x);
      assert old(hs[x].routingTable.Valid());
    }
  }

  /** Routing tables other than the `i`-th none of whose objects changed,
      and a valid `i`-th one: all are valid, and only the `i`-th may have
      other objects or hold something else. The host list and `i` come as
      one pair `p`. */
  twostate lemma KeptOthers(p: (seq<Host>, nat))
    requires old(TablesValid(p.0)) && p.1 < |p.0|
    requires p.0[p.1].routingTable.Valid()
    requires forall x :: 0 <= x < |p.0| && Apart(x, p.1) ==> unchanged(old(p.0[x].routingTable.Repr))
    ensures TablesValid(p.0)
    ensures TableReprs(p.0) == old(TableReprs(p.0))[p.1 := p.0[p.1].routingTable.Repr]
    ensures TableContents(p.0) == old(TableContents(p.0))[p.1 := p.0[p.1].routingTable.Contents]
  {
    assert HostAt(p.0, p.1);
    forall x | 0 <= x < |p.0| && x != p.1
      ensures p.0[x].routingTable.Valid() && p.0[x].routingTable.hash == HostHash
      ensures p.0[x].routingTable.Repr == old(p.0[x].routingTable.Repr)
      ensures p.0[x].routingTable.Contents == old(p.0[x].routingTable.Contents)
    {
      assert HostAt(p.0, x) && Apart(x, p.1);
      assert old(p.0[x].routingTable.Valid());
    }
    assert TablesValid(p.0) by {
      forall x {:trigger HostAt(p.0, x)} | HostAt(p.0, x)
        ensures p.0[x].routingTable.Valid() && p.0[x].routingTable.hash == HostHash
      {
      }
    }
  }

  // ---------------------------------------------------------------------------
  // Replaying a message: `route`.

  /** What `route(dest)` does at host `loc`, whose routing table holds `m`,
      in the network `hs`, `b`: the result, or the exception, and the host
      the message is at afterwards. With no entry for `dest` the message
      stays; with an entry but no connection to that hop `findEdge` gives
      null, and colouring it is a NullPointerException; otherwise the
      message moves to the hop and goes on unless that is `dest`. */
  ghost function RouteStep(hs: seq<Host>, b: Adjacency, loc: Host, m: map<Host, Host>, dest: Host):
    (r: (Result<bool>, Host))
    requires |b| == MaxNetworkSize
    ensures r.0.Failure? ==> r.0.error == NullPointer && r.1 == loc
    ensures r.0 == Success(true) ==> dest in m && r.1 == m[dest] != dest
    ensures r.0 == Success(false) ==> if dest in m then r.1 == m[dest] == dest else r.1 == loc
    ensures r.0.Failure? <==> dest in m && FindEdgeSpec(hs, b, loc, m[dest]).None?
  {
    if dest !in m then (Success(false), loc)
    else if FindEdgeSpec(hs, b, loc, m[dest]).None? then (Failure(NullPointer), loc)
    else (Success(m[dest] != dest), m[dest])
  }

  /** The first hop `h` of a lightest walk from host `s` is a host that
      `findEdge` finds joined to `hs[s]` in a simple network. */
  lemma FirstHopJoined(hs: seq<Host>, b: Adjacency, s: nat, x: nat, h: Host)
    requires |b| == MaxNetworkSize && Simple(hs, b) && s < |hs| && FirstHop(hs, b, s, x, h)
    ensures h in hs && FindEdgeSpec(hs, b, hs[s], h).Some?
  {
    var ns, ts :| WalkBetween(hs, b, s, x, ns, ts) && |ts| > 0 && ns[1] < |hs| && hs[ns[1]] == h;
    assert Arc(hs, b, ns[0], ts[0], ns[1]);
    ArcIsPair(hs, b, s, ts[0], ns[1]);
    assert b[hs[s].id][ts[0]].key == h;
    FindEdgeComplete(hs, b, hs[s], h);
  }

  /** `route(dest)` at host `x`, whose table carries the routes from `x`,
      with `dest` the host `y`: it throws nothing and leaves the message at
      a host. When it says the message goes no further, the message is at
      `dest` exactly when `dest` is `x` itself or reachable from it; when it
      says the message goes on, it has moved to the first hop of a lightest
      walk to `dest`. */
  lemma RouteFromRouted(hs: seq<Host>, b: Adjacency, x: nat, m0: map<Host, Host>, m: map<Host, Host>, y: nat)
    requires |b| == MaxNetworkSize && Simple(hs, b) && DistinctHosts(hs)
    requires x < |hs| && y < |hs| && Routed(hs, b, x, m0, m) && hs[y] !in m0
    ensures RouteStep(hs, b, hs[x], m, hs[y]).0.Success? && RouteStep(hs, b, hs[x], m, hs[y]).1 in hs
    ensures RouteStep(hs, b, hs[x], m, hs[y]).0 == Success(false) ==>
      (RouteStep(hs, b, hs[x], m, hs[y]).1 == hs[y] <==> x == y || Reachable(hs, b, x, y))
    ensures RouteStep(hs, b, hs[x], m, hs[y]).0 == Success(true) ==>
      FirstHop(hs, b, x, y, RouteStep(hs, b, hs[x], m, hs[y]).1)
  {
    assert HostAt(hs, y);
    if hs[y] in m {
      FirstHopJoined(hs, b, x, y, m[hs[y]]);
    } else if x != y {
      assert hs[x] != hs[y];
    }
  }

  /** The router: the network it runs on, whether the routes are computed,
      and the host a replayed message has reached. */
  class ThreeTenNetwork {
    var graph: Network?
    var started: bool
    var currentLoc: Host?

    constructor ()
      ensures graph == null && !started && currentLoc == null
    {
      graph := null;
      started := false;
      currentLoc := null;
    }

    /** `reset(g)`: a new network, routes not computed, no message. */
    method Reset(g: Network)
      modifies this
      ensures graph == g && !started && currentLoc == null
    {
      graph := g;
      Clean();
    }

    /** `clean()`; the colours it sets are not modelled. */
    method Clean()
      requires graph != null
      modifies this
      ensures graph == old(graph) && !started && currentLoc == null
    {
      started := false;
      currentLoc := null;
    }

    /** `runDijkstra(startNode)`: a search from `startNode` over a fresh
        host-to-node table, whose tree `setupTables` reads into
        `startNode`'s routing table. */
    method RunDijkstra(startNode: Host)
      requires graph != null && graph.Valid() && HostHashesNonNegative(graph.hosts) && startNode in graph.hosts
      requires Closed(graph.hosts, graph.Lists()) && WeightsBounded(graph.hosts, graph.Lists())
      requires startNode.routingTable.Valid() && startNode.routingTable.hash == HostHash
      requires {this, graph, graph.storage, graph.storage.storage} !! startNode.routingTable.Repr
      modifies startNode.routingTable.Repr
      ensures startNode.routingTable.Valid()
      ensures fresh(startNode.routingTable.Repr - old(startNode.routingTable.Repr))
      ensures Routed(graph.hosts, graph.Lists(), IndexOf(graph.hosts, startNode),
                     old(startNode.routingTable.Contents), startNode.routingTable.Contents)
    {
      ghost var hs, b := graph.hosts, graph.Lists();
      var table, nodes, order := SearchFrom(graph, startNode);
      assert graph.hosts == hs && graph.Lists() == b;
      SetupTables(graph, startNode, table, nodes, order);
      assert graph.hosts == hs && graph.Lists() == b;
      RoutesLearned(hs, b, IndexOf(hs, startNode), nodes, order, old(startNode.routingTable.Contents));
    }

    /** `start()`: `clean()`, then `runDijkstra` from every host in list
        order, then the routes are marked computed. */
    method Start()
      requires graph != null && graph.Valid() && HostHashesNonNegative(graph.hosts)
      requires Closed(graph.hosts, graph.Lists()) && WeightsBounded(graph.hosts, graph.Lists())
      requires TablesValid(graph.hosts) && Separate(this, graph, TableReprs(graph.hosts))
      modifies this, TablesRepr(graph.hosts)
      ensures graph == old(graph) && graph.hosts == old(graph.hosts) && started && currentLoc == null
      ensures TablesValid(graph.hosts) && Separate(this, graph, TableReprs(graph.hosts))
      ensures var before, after := old(TableContents(graph.hosts)), TableContents(graph.hosts);
        forall x :: 0 <= x < |before| ==> Routed(graph.hosts, graph.Lists(), x, before[x], after[x])
    {
      ghost var before, reprs, all := TableContents(graph.hosts), TableReprs(graph.hosts), TablesRepr(graph.hosts);
      Clean();
      var hs := graph.hosts;
      ghost var b := graph.Lists();
      KeptTables(hs);
      for i := 0 to |hs|
        invariant graph == old(graph) && graph.Valid() && graph.hosts == hs && graph.Lists() == b
        invariant !started && currentLoc == null
        invariant TablesValid(hs) && Separate(this, graph, TableReprs(hs))
        invariant TurnsDone(hs, b, i, before, TableContents(hs), reprs, TableReprs(hs))
      {
        assert hs[i].routingTable.Repr == reprs[i] <= all;
        ghost var after, now := TableContents(hs), TableReprs(hs);
        RunAt(hs, i, b);
        TurnDone(hs, b, i, before, after, reprs, now, hs[i].routingTable.Contents, hs[i].routingTable.Repr);
      }
      label done:
      started := true;
      KeptTables@done(hs);
    }

    /** One turn of the loop of `start`: `runDijkstra` from the `i`-th host
        fills that host's table and leaves the other tables alone. */
    method RunAt(hs: seq<Host>, i: nat, ghost b: Adjacency)
      requires graph != null && graph.Valid() && graph.hosts == hs && graph.Lists() == b
      requires HostHashesNonNegative(hs) && Closed(hs, b) && WeightsBounded(hs, b) && i < |hs|
      requires TablesValid(hs) && Separate(this, graph, TableReprs(hs))
      modifies hs[i].routingTable.Repr
      ensures graph.Valid() && graph.hosts == hs && graph.Lists() == b
      ensures TablesValid(hs) && Separate(this, graph, TableReprs(hs))
      ensures TableReprs(hs) == old(TableReprs(hs))[i := hs[i].routingTable.Repr]
      ensures TableContents(hs) == old(TableContents(hs))[i := hs[i].routingTable.Contents]
      ensures Routed(hs, b, i, old(hs[i].routingTable.Contents), hs[i].routingTable.Contents)
    {
      ghost var reprs := TableReprs(hs);
      IndexOfDistinct(hs, i);
      assert HostAt(hs, i);
      RunDijkstra(hs[i]);
      KeptOthers((hs, i));
      SeparateGrown(this, graph, reprs, i, hs[i].routingTable.Repr);
    }

    /** `step(source, dest)`: the message starts at `source`, and goes no
        further only when it is addressed to `source` itself and `findEdge`
        finds no connection from `source` to itself; a null `source` is a
        NullPointerException at `source.equals(dest)`. */
    method StepFrom(source: Host?, dest: Host?) returns (more: Result<bool>)
      requires graph != null && graph.Valid()
      modifies this
      ensures graph == old(graph) && started == old(started) && currentLoc == source
      ensures source == null ==> more == Failure(NullPointer)
      ensures source != null ==>
        more.Success? && (!more.value <==> source == dest && FindEdgeSpec(graph.hosts, graph.Lists(), source, source).None?)
    {
      currentLoc := source;
      if source == null {
        return Failure(NullPointer);
      }
      if source == dest {
        var c := graph.FindEdge(source, dest);
        if c.None? {
          return Success(false);
        }
      }
      return Success(true);
    }

    /** `route(dest)`: one hop along the current host's routing table, as
        `RouteStep` says; with no current host, `currentLoc.getRoutingTable()`
        is a NullPointerException, and so is a null `dest`, whose hash code
        `get` asks for. */
    method Route(dest: Host?) returns (r: Result<bool>)
      requires graph != null && graph.Valid() && (dest != null ==> HostHash(dest) >= 0)
      requires currentLoc != null ==> currentLoc.routingTable.Valid() && currentLoc.routingTable.hash == HostHash
      modifies this
      ensures graph == old(graph) && started == old(started)
      ensures old(currentLoc) == null ==> r == Failure(NullPointer) && currentLoc == null
      ensures old(currentLoc) != null && dest == null ==> r == Failure(NullPointer) && currentLoc == old(currentLoc)
      ensures old(currentLoc) != null && dest != null ==>
        (r, currentLoc) == RouteStep(graph.hosts, graph.Lists(), old(currentLoc), old(currentLoc.routingTable.Contents), dest)
    {
      if currentLoc == null || dest == null {
        return Failure(NullPointer);
      }
      var nextHop := currentLoc.routingTable.Get(dest);
      if nextHop.None? {
        return Success(false);
      }
      var c := graph.FindEdge(currentLoc, nextHop.value);
      if c.None? {
        return Failure(NullPointer);
      }
      currentLoc := nextHop.value;
      return Success(currentLoc != dest);
    }

    /** `finish(dest)`: whether `dest` is coloured as reached (true) or the
        current host as failed (false); with no current host,
        `currentLoc.equals(dest)` is a NullPointerException. A null `dest`
        equals no host, so it is the failure verdict. */
    function Finish(dest: Host?): (r: Result<bool>)
      reads this
      ensures r.Failure? <==> currentLoc == null
      ensures r.Success? ==> (r.value <==> currentLoc == dest)
    {
      if currentLoc == null then Failure(NullPointer) else Success(currentLoc == dest)
    }

    /** `step(dest)`: `route(dest)`, and when it says the message goes no
        further, `finish(dest)`, whose verdict is `arrived`. */
    method Step(dest: Host?) returns (r: Result<bool>, arrived: Option<bool>)
      requires graph != null && graph.Valid() && (dest != null ==> HostHash(dest) >= 0)
      requires currentLoc != null ==> currentLoc.routingTable.Valid() && currentLoc.routingTable.hash == HostHash
      modifies this
      ensures graph == old(graph) && started == old(started)
      ensures old(currentLoc) == null ==> r == Failure(NullPointer) && currentLoc == null
      ensures old(currentLoc) != null && dest == null ==> r == Failure(NullPointer) && currentLoc == old(currentLoc)
      ensures old(currentLoc) != null && dest != null ==>
        (r, currentLoc) == RouteStep(graph.hosts, graph.Lists(), old(currentLoc), old(currentLoc.routingTable.Contents), dest)
      ensures arrived == if r == Success(false) then Some(currentLoc == dest) else None
    {
      r := Route(dest);
      arrived := None;
      if r == Success(false) {
        var f := Finish(dest);
        arrived := Some(f.value);
      }
    }
  }
}
