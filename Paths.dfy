/** The network as the router sees it. From host `hs[y]` the router follows
    each connection `e` of `getOutEdges(hs[y])` to `getOpposite(hs[y], e)`,
    at a cost of `e.weight`; hosts are numbered by their place in the host
    list. Walks, their weights and shortest distances are defined over these
    arcs. */
module Paths {
  import opened Wrappers
  import opened Pairs
  import opened Chains
  import opened Hosts
  import opened Graph

  /** `Integer.MAX_VALUE`, the distance of a host not reached yet. */
  const Infinity := 2147483647

  /** A Java `int` computation: the exact value wrapped to 32 bits. */
  function Wrap32(x: int): (r: int)
    ensures -2147483648 <= r <= 2147483647
    ensures (r - x) % 4294967296 == 0
    ensures -2147483648 <= x <= 2147483647 ==> r == x
  {
    (x + 2147483648) % 4294967296 - 2147483648
  }

  /** A host wrapped for Dijkstra's algorithm. `parent` is the place, in the
      host list, of the node it was last reached from. */
  datatype DijkstraNode = DijkstraNode(host: Host, parent: Option<nat>, done: bool, distance: int)

  /** `DijkstraNode.compareTo`: by distance, ties broken by host id. For
      distances between 0 and `Integer.MAX_VALUE` the differences do not
      wrap, and the sign is the lexicographic order on (distance, id). */
  function CompareTo(a: DijkstraNode, b: DijkstraNode): (r: int)
    ensures 0 <= a.distance <= Infinity && 0 <= b.distance <= Infinity ==>
      (r < 0 <==> a.distance < b.distance || (a.distance == b.distance && a.host.id < b.host.id)) &&
      (r == 0 <==> a.distance == b.distance && a.host.id == b.host.id)
  {
    if a.distance == b.distance then Wrap32(a.host.id - b.host.id)
    else Wrap32(a.distance - b.distance)
  }

  /** The place of `h` in a list of distinct hosts. */
  function IndexOf(hs: seq<Host>, h: Host): (i: nat)
    requires h in hs
    ensures i < |hs| && hs[i] == h
  {
    if hs[0] == h then 0 else 1 + IndexOf(hs[1..], h)
  }

  lemma IndexOfDistinct(hs: seq<Host>, i: nat)
    requires DistinctHosts(hs) && i < |hs|
    ensures IndexOf(hs, hs[i]) == i
  {
  }

  /** Every key in a host's list is a host of the network, so the other end
      of every connection is a host and has a node. */
  ghost predicate Closed(hs: seq<Host>, b: Adjacency)
    requires |b| == MaxNetworkSize
  {
    forall i, t :: 0 <= i < |hs| && 0 <= t < |b[hs[i].id]| ==> b[hs[i].id][t].key in hs
  }

  /** The weight of the `t`-th connection in `hs[y]`'s list. */
  function Cost(hs: seq<Host>, b: Adjacency, y: nat, t: nat): int
    requires |b| == MaxNetworkSize && y < |hs| && t < |b[hs[y].id]|
  {
    b[hs[y].id][t].value.weight
  }

  /** Weights are non-negative and small enough that no path of at most
      one connection per host adds up past `Integer.MAX_VALUE - 1`. */
  ghost predicate WeightsBounded(hs: seq<Host>, b: Adjacency)
    requires |b| == MaxNetworkSize
  {
    forall y, t :: 0 <= y < |hs| && 0 <= t < |b[hs[y].id]| ==>
      0 <= Cost(hs, b, y, t) && Cost(hs, b, y, t) * |hs| < Infinity
  }

  /** Every host hashes to a non-negative code, as the hash tables need. */
  ghost predicate HostHashesNonNegative(hs: seq<Host>)
  {
    forall i :: 0 <= i < |hs| ==> hs[i].hashCode >= 0
  }

  /** Relaxing the `t`-th connection of `hs[y]`'s list looks at node `z`. */
  ghost predicate Arc(hs: seq<Host>, b: Adjacency, y: nat, t: nat, z: nat)
    requires |b| == MaxNetworkSize
  {
    y < |hs| && z < |hs| && t < |b[hs[y].id]| && SourceOf(hs, b, b[hs[y].id][t].value).Some? &&
    Opposite(hs, b, hs[y], b[hs[y].id][t].value) == hs[z]
  }

  /** `ns` are the nodes visited and `ts[i]` the place, in `ns[i]`'s list,
      of the connection taken from it. */
  ghost predicate Steps(hs: seq<Host>, b: Adjacency, ns: seq<nat>, ts: seq<nat>)
    requires |b| == MaxNetworkSize
  {
    |ns| == |ts| + 1 && forall i :: 0 <= i < |ts| ==> ns[i] < |hs| && ts[i] < |b[hs[ns[i]].id]|
  }

  /** The total weight of the connections taken. */
  ghost function Weight(hs: seq<Host>, b: Adjacency, ns: seq<nat>, ts: seq<nat>): int
    requires |b| == MaxNetworkSize && Steps(hs, b, ns, ts)
    decreases |ts|
  {
    if ts == [] then 0
    else
      var k := |ts| - 1;
      Weight(hs, b, ns[..k + 1], ts[..k]) + Cost(hs, b, ns[k], ts[k])
  }

  ghost predicate IsWalk(hs: seq<Host>, b: Adjacency, ns: seq<nat>, ts: seq<nat>)
    requires |b| == MaxNetworkSize
  {
    Steps(hs, b, ns, ts) && ns[0] < |hs| &&
    forall i :: 0 <= i < |ts| ==> Arc(hs, b, ns[i], ts[i], ns[i + 1])
  }

  ghost predicate WalkBetween(hs: seq<Host>, b: Adjacency, s: nat, x: nat, ns: seq<nat>, ts: seq<nat>)
    requires |b| == MaxNetworkSize
    ensures WalkBetween(hs, b, s, x, ns, ts) ==> Steps(hs, b, ns, ts)
  {
    IsWalk(hs, b, ns, ts) && ns[0] == s && ns[|ts|] == x
  }

  ghost predicate Reachable(hs: seq<Host>, b: Adjacency, s: nat, x: nat)
    requires |b| == MaxNetworkSize
  {
    exists ns, ts :: WalkBetween(hs, b, s, x, ns, ts)
  }

  /** No walk from `s` to `x` weighs less than `d`. */
  ghost predicate NoShorter(hs: seq<Host>, b: Adjacency, s: nat, x: nat, d: int)
    requires |b| == MaxNetworkSize
  {
    forall ns, ts :: WalkBetween(hs, b, s, x, ns, ts) ==> d <= Weight(hs, b, ns, ts)
  }

  /** `d` is the weight of a lightest walk from `s` to `x`. */
  ghost predicate Distance(hs: seq<Host>, b: Adjacency, s: nat, x: nat, d: int)
    requires |b| == MaxNetworkSize
  {
    (exists ns, ts :: WalkBetween(hs, b, s, x, ns, ts) && Weight(hs, b, ns, ts) == d) &&
    NoShorter(hs, b, s, x, d)
  }

  /** `h` is the second host of some lightest walk from `s` to `x`. */
  ghost predicate FirstHop(hs: seq<Host>, b: Adjacency, s: nat, x: nat, h: Host)
    requires |b| == MaxNetworkSize
  {
    exists ns, ts :: WalkBetween(hs, b, s, x, ns, ts) && |ts| > 0 && ns[1] < |hs| && hs[ns[1]] == h &&
      NoShorter(hs, b, s, x, Weight(hs, b, ns, ts))
  }

  // ---------------------------------------------------------------------------
  // Arcs and walks.

  /** In a simple graph the `t`-th connection of a host leads to its key. */
  lemma ArcIsPair(hs: seq<Host>, b: Adjacency, y: nat, t: nat, z: nat)
    requires |b| == MaxNetworkSize && Simple(hs, b) && y < |hs| && z < |hs| && t < |b[hs[y].id]|
    ensures Arc(hs, b, y, t, z) <==> b[hs[y].id][t].key == hs[z]
  {
    OppositeEnds(hs, b, y, t);
  }

  /** A connection listed for a host has a source, and in a closed network
      its other end is a host. */
  lemma ArcExists(hs: seq<Host>, b: Adjacency, y: nat, t: nat)
    requires |b| == MaxNetworkSize && Closed(hs, b) && y < |hs| && t < |b[hs[y].id]|
    ensures SourceOf(hs, b, b[hs[y].id][t].value).Some?
    ensures Opposite(hs, b, hs[y], b[hs[y].id][t].value) in hs
    ensures Arc(hs, b, y, t, IndexOf(hs, Opposite(hs, b, hs[y], b[hs[y].id][t].value)))
  {
    var e := b[hs[y].id][t].value;
    assert Values(b[hs[y].id])[t] == e;
    SourceNone(hs, b, e);
    var src := SourceOf(hs, b, e).value;
    if src == hs[y] {
      var d := DestOf(hs, b, e).value;
      var c := b[src.id];
      var u :| 0 <= u < |c| && c[u] == KeyValuePair(d, e);
      assert c == b[hs[y].id];
    }
  }

  lemma ArcWeight(hs: seq<Host>, b: Adjacency, y: nat, t: nat, z: nat)
    requires |b| == MaxNetworkSize && WeightsBounded(hs, b) && Arc(hs, b, y, t, z)
    ensures 0 <= Cost(hs, b, y, t) <= MaxWeight(|hs|)
  {
    var n, w := |hs|, Cost(hs, b, y, t);
    assert w * n <= Infinity - 1;
    if w > (Infinity - 1) / n {
      MulMonotone(n, (Infinity - 1) / n + 1, w);
    }
  }

  /** A connection's weight is at most `(Integer.MAX_VALUE - 1) / n`. */
  function MaxWeight(n: nat): int
    requires n > 0
  {
    (Infinity - 1) / n
  }

  lemma MulMonotone(n: nat, a: int, c: int)
    requires a <= c
    ensures a * n <= c * n
  {
  }

  /** `k + 1` steps of at most `MaxWeight(n)` stay below `Integer.MAX_VALUE`. */
  lemma StepsFit(n: nat, k: nat)
    requires 0 < n && k < n
    ensures 0 <= k * MaxWeight(n) <= (k + 1) * MaxWeight(n) <= Infinity - 1
  {
    var w := MaxWeight(n);
    assert w * n <= Infinity - 1;
    MulMonotone(w, k + 1, n);
    MulMonotone(w, k, k + 1);
  }

  lemma WeightSnoc(hs: seq<Host>, b: Adjacency, ns: seq<nat>, ts: seq<nat>, t: nat, z: nat)
    requires |b| == MaxNetworkSize && Steps(hs, b, ns, ts) && Steps(hs, b, ns + [z], ts + [t])
    requires ns[|ts|] < |hs| && t < |b[hs[ns[|ts|]].id]|
    ensures Weight(hs, b, ns + [z], ts + [t]) == Weight(hs, b, ns, ts) + Cost(hs, b, ns[|ts|], t)
  {
    var k := |ts|;
    assert (ns + [z])[..k + 1] == ns && (ts + [t])[..k] == ts;
    assert (ns + [z])[k] == ns[k];
  }

  lemma WalkSnoc(hs: seq<Host>, b: Adjacency, ns: seq<nat>, ts: seq<nat>, t: nat, z: nat)
    requires |b| == MaxNetworkSize && IsWalk(hs, b, ns, ts) && Arc(hs, b, ns[|ts|], t, z)
    ensures IsWalk(hs, b, ns + [z], ts + [t])
    ensures Weight(hs, b, ns + [z], ts + [t]) == Weight(hs, b, ns, ts) + Cost(hs, b, ns[|ts|], t)
  {
    var ns', ts' := ns + [z], ts + [t];
    forall i | 0 <= i < |ts'|
      ensures Arc(hs, b, ns'[i], ts'[i], ns'[i + 1])
    {
      if i < |ts| {
        assert ns'[i] == ns[i] && ts'[i] == ts[i] && ns'[i + 1] == ns[i + 1];
      }
    }
    WeightSnoc(hs, b, ns, ts, t, z);
  }

  lemma WalkPrefix(hs: seq<Host>, b: Adjacency, ns: seq<nat>, ts: seq<nat>, i: nat)
    requires |b| == MaxNetworkSize && IsWalk(hs, b, ns, ts) && i <= |ts|
    ensures IsWalk(hs, b, ns[..i + 1], ts[..i])
  {
    var ns', ts' := ns[..i + 1], ts[..i];
    forall k | 0 <= k < |ts'|
      ensures Arc(hs, b, ns'[k], ts'[k], ns'[k + 1])
    {
      assert ns'[k] == ns[k] && ts'[k] == ts[k] && ns'[k + 1] == ns[k + 1];
    }
  }

  /** The prefix with `i` connections weighs the prefix with `i - 1` plus
      the `i`-th connection. */
  lemma WeightPrefixStep(hs: seq<Host>, b: Adjacency, ns: seq<nat>, ts: seq<nat>, i: nat)
    requires |b| == MaxNetworkSize && Steps(hs, b, ns, ts) && 0 < i <= |ts|
    ensures Steps(hs, b, ns[..i + 1], ts[..i]) && Steps(hs, b, ns[..i], ts[..i - 1])
    ensures Weight(hs, b, ns[..i + 1], ts[..i]) ==
      Weight(hs, b, ns[..i], ts[..i - 1]) + Cost(hs, b, ns[i - 1], ts[i - 1])
  {
    var ns', ts' := ns[..i + 1], ts[..i];
    assert ns'[..i] == ns[..i] && ts'[..i - 1] == ts[..i - 1];
    assert ns'[i - 1] == ns[i - 1] && ts'[i - 1] == ts[i - 1];
  }

  /** Along a walk with non-negative weights, prefixes weigh no more. */
  lemma {:induction false} WeightPrefix(hs: seq<Host>, b: Adjacency, ns: seq<nat>, ts: seq<nat>, i: nat)
    requires |b| == MaxNetworkSize && WeightsBounded(hs, b) && IsWalk(hs, b, ns, ts) && i <= |ts|
    ensures Steps(hs, b, ns[..i + 1], ts[..i])
    ensures Weight(hs, b, ns[..i + 1], ts[..i]) <= Weight(hs, b, ns, ts)
    decreases |ts| - i
  {
    WalkPrefix(hs, b, ns, ts, i);
    if i < |ts| {
      WeightPrefix(hs, b, ns, ts, i + 1);
      var ns', ts' := ns[..i + 2], ts[..i + 1];
      assert ns'[..i + 1] == ns[..i + 1] && ts'[..i] == ts[..i];
      assert ns'[i] == ns[i] && ts'[i] == ts[i];
      assert Arc(hs, b, ns[i], ts[i], ns[i + 1]);
      ArcWeight(hs, b, ns[i], ts[i], ns[i + 1]);
    } else {
      assert ns[..i + 1] == ns && ts[..i] == ts;
    }
  }

  lemma {:induction false} WeightCons(hs: seq<Host>, b: Adjacency, ns: seq<nat>, ts: seq<nat>)
    requires |b| == MaxNetworkSize && Steps(hs, b, ns, ts) && |ts| > 0
    ensures Steps(hs, b, ns[1..], ts[1..])
    ensures Weight(hs, b, ns, ts) == Cost(hs, b, ns[0], ts[0]) + Weight(hs, b, ns[1..], ts[1..])
    decreases |ts|
  {
    var ns1, ts1 := ns[1..], ts[1..];
    assert forall i :: 0 <= i < |ts1| ==> ns1[i] == ns[i + 1] && ts1[i] == ts[i + 1];
    var k := |ts| - 1;
    if k > 0 {
      var ns', ts' := ns[..k + 1], ts[..k];
      WeightCons(hs, b, ns', ts');
      assert ns'[1..] == ns1[..k] && ts'[1..] == ts1[..k - 1];
      assert ns1[k - 1] == ns[k] && ts1[k - 1] == ts[k];
    } else {
      assert ts1 == [];
    }
  }

  /** A walk with an arc in front is a walk, one connection heavier. */
  lemma WalkCons(hs: seq<Host>, b: Adjacency, y: nat, t: nat, ms: seq<nat>, us: seq<nat>)
    requires |b| == MaxNetworkSize && IsWalk(hs, b, ms, us) && Arc(hs, b, y, t, ms[0])
    ensures IsWalk(hs, b, [y] + ms, [t] + us)
    ensures Weight(hs, b, [y] + ms, [t] + us) == Cost(hs, b, y, t) + Weight(hs, b, ms, us)
  {
    var ms', us' := [y] + ms, [t] + us;
    forall k | 0 <= k < |us'|
      ensures Arc(hs, b, ms'[k], us'[k], ms'[k + 1])
    {
      if k > 0 {
        assert ms'[k] == ms[k - 1] && us'[k] == us[k - 1] && ms'[k + 1] == ms[k];
      }
    }
    assert ms'[1..] == ms && us'[1..] == us;
    WeightCons(hs, b, ms', us');
  }

  /** A walk without its first connection is a walk. */
  lemma WalkTail(hs: seq<Host>, b: Adjacency, ns: seq<nat>, ts: seq<nat>)
    requires |b| == MaxNetworkSize && IsWalk(hs, b, ns, ts) && |ts| > 0
    ensures IsWalk(hs, b, ns[1..], ts[1..]) && Arc(hs, b, ns[0], ts[0], ns[1])
    ensures Weight(hs, b, ns, ts) == Cost(hs, b, ns[0], ts[0]) + Weight(hs, b, ns[1..], ts[1..])
  {
    var ns1, ts1 := ns[1..], ts[1..];
    forall k | 0 <= k < |ts1|
      ensures Arc(hs, b, ns1[k], ts1[k], ns1[k + 1])
    {
      assert ns1[k] == ns[k + 1] && ts1[k] == ts[k + 1] && ns1[k + 1] == ns[k + 2];
    }
    assert Arc(hs, b, ns[0], ts[0], ns[1]);
    WeightCons(hs, b, ns, ts);
  }

  /** Following the first connection of a lightest walk leaves a lightest
      walk from the next host: its weight falls by that connection's. */
  lemma RestIsLightest(hs: seq<Host>, b: Adjacency, s: nat, x: nat, ns: seq<nat>, ts: seq<nat>)
    requires |b| == MaxNetworkSize && WalkBetween(hs, b, s, x, ns, ts) && |ts| > 0
    requires NoShorter(hs, b, s, x, Weight(hs, b, ns, ts))
    ensures WalkBetween(hs, b, ns[1], x, ns[1..], ts[1..])
    ensures Weight(hs, b, ns, ts) == Cost(hs, b, ns[0], ts[0]) + Weight(hs, b, ns[1..], ts[1..])
    ensures NoShorter(hs, b, ns[1], x, Weight(hs, b, ns[1..], ts[1..]))
  {
    WalkTail(hs, b, ns, ts);
    RestNoShorter(hs, b, s, x, ts[0], ns[1], Weight(hs, b, ns[1..], ts[1..]));
  }

  /** If no walk from `s` to `x` beats `Cost(s, t) + d`, where connection
      `t` leads from `s` to `y`, then no walk from `y` to `x` beats `d`. */
  lemma RestNoShorter(hs: seq<Host>, b: Adjacency, s: nat, x: nat, t: nat, y: nat, d: int)
    requires |b| == MaxNetworkSize && Arc(hs, b, s, t, y)
    requires NoShorter(hs, b, s, x, Cost(hs, b, s, t) + d)
    ensures NoShorter(hs, b, y, x, d)
  {
    forall ms, us | WalkBetween(hs, b, y, x, ms, us)
      ensures d <= Weight(hs, b, ms, us)
    {
      WalkBetweenCons(hs, b, s, x, t, ms, us);
    }
  }

  /** A connection from `s` to the start of a walk to `x` makes a walk from
      `s` to `x`. */
  lemma WalkBetweenCons(hs: seq<Host>, b: Adjacency, s: nat, x: nat, t: nat, ms: seq<nat>, us: seq<nat>)
    requires |b| == MaxNetworkSize && |ms| > 0 && WalkBetween(hs, b, ms[0], x, ms, us) && Arc(hs, b, s, t, ms[0])
    ensures WalkBetween(hs, b, s, x, [s] + ms, [t] + us)
    ensures Weight(hs, b, [s] + ms, [t] + us) == Cost(hs, b, s, t) + Weight(hs, b, ms, us)
  {
    WalkCons(hs, b, s, t, ms, us);
  }
}
