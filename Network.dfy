/** The network: a directed graph whose hosts are kept in the order they were
    added and whose connections live in one adjacency list per host id, list
    `h.id` holding a pair `(to, c)` for each connection `c` from `h` to `to`.
    Every query walks these lists; the functions of module Graph say what
    each walk computes. */
module Networks {
  import opened Wrappers
  import opened Pairs
  import opened Chains
  import opened BucketSpec
  import opened ListsOfPairs
  import opened Hosts
  import opened Graph

  /** The inner walk of `getSource` and `getDest`: the position of the first
      pair of `arr` holding `e`, or `|arr|` when none does. */
  method FindValue(arr: Chain<Host, Connection>, e: Connection) returns (j: nat)
    ensures j == FirstWithValue(arr, e)
  {
    j := 0;
    while j < |arr| && arr[j].value != e
      invariant j <= |arr| && forall t :: 0 <= t < j ==> arr[t].value != e
    {
      j := j + 1;
    }
    FirstWithValueIsFirst(arr, e, j);
  }

  class Network {
    const storage: ArrayOfListsOfPairs<Host, Connection>
    var hosts: seq<Host>

    ghost predicate Valid()
      reads this
    {
      storage.storage.Length == MaxNetworkSize && DistinctHosts(hosts)
    }

    /** The adjacency lists as values. */
    function Lists(): (b: Adjacency)
      reads storage.storage
      requires storage.storage.Length == MaxNetworkSize
      ensures |b| == MaxNetworkSize
    {
      storage.storage[..]
    }

    /** `new Network()`: no hosts and `MAX_NETWORK_SIZE` empty lists. */
    constructor ()
      ensures Valid() && hosts == []
      ensures Lists() == EmptyBuckets(MaxNetworkSize)
      ensures fresh(storage) && fresh(storage.storage)
    {
      storage := new ArrayOfListsOfPairs(MaxNetworkSize, HostHash);
      hosts := [];
    }

    method GetEdges() returns (edges: seq<Connection>)
      requires Valid()
      ensures edges == Edges(hosts, Lists())
    {
      edges := [];
      for i := 0 to |hosts|
        invariant edges == Edges(hosts[..i], Lists())
      {
        var arr := storage.GetAllPairsAt(hosts[i].id);
        ghost var done := edges;
        for j := 0 to |arr|
          invariant edges == done + Values(arr[..j])
        {
          assert Values(arr[..j + 1]) == Values(arr[..j]) + [arr[j].value];
          edges := edges + [arr[j].value];
        }
        assert arr[..|arr|] == arr;
        EdgesSnoc(hosts, i, Lists());
      }
      assert hosts[..|hosts|] == hosts;
    }

    method GetOutEdges(v: Host) returns (edges: seq<Connection>)
      requires Valid()
      ensures edges == OutEdges(Lists(), v)
    {
      var arr := storage.GetAllPairsAt(v.id);
      edges := [];
      for j := 0 to |arr|
        invariant edges == Values(arr[..j])
      {
        assert Values(arr[..j + 1]) == Values(arr[..j]) + [arr[j].value];
        edges := edges + [arr[j].value];
      }
      assert arr[..|arr|] == arr;
    }

    /** `getInEdges(v)`; no pair is keyed null, so `getInEdges(null)` is empty. */
    method GetInEdges(v: Host?) returns (edges: seq<Connection>)
      requires Valid()
      ensures v == null ==> edges == []
      ensures v != null ==> edges == InEdges(hosts, Lists(), v)
    {
      edges := [];
      if v == null {
        return;
      }
      for i := 0 to |hosts|
        invariant edges == InEdges(hosts[..i], Lists(), v)
      {
        var arr := storage.GetAllPairsAt(hosts[i].id);
        ghost var done := edges;
        for j := 0 to |arr|
          invariant edges == done + ValuesWithKey(arr[..j], v)
        {
          ValuesWithKeySnoc(arr, j, v);
          if arr[j].key == v {
            edges := edges + [arr[j].value];
          }
        }
        assert arr[..|arr|] == arr;
        InEdgesSnoc(hosts, i, Lists(), v);
      }
      assert hosts[..|hosts|] == hosts;
    }

    /** `getPredecessors(v)`; no pair is keyed null, so `getPredecessors(null)` is empty. */
    method GetPredecessors(v: Host?) returns (preds: seq<Host>)
      requires Valid()
      ensures v == null ==> preds == []
      ensures v != null ==> preds == Preds(hosts, Lists(), v)
    {
      preds := [];
      if v == null {
        return;
      }
      for i := 0 to |hosts|
        invariant preds == Preds(hosts[..i], Lists(), v)
      {
        var arr := storage.GetAllPairsAt(hosts[i].id);
        var j := 0;
        while j < |arr|
          invariant 0 <= j <= |arr|
          invariant forall t :: 0 <= t < j ==> arr[t].key != v
        {
          if arr[j].key == v {
            preds := preds + [hosts[i]];
            break;
          }
          j := j + 1;
        }
        PredsSnoc(hosts, i, Lists(), v);
      }
      assert hosts[..|hosts|] == hosts;
    }

    method GetSuccessors(v: Host) returns (succs: seq<Host>)
      requires Valid()
      ensures succs == Successors(Lists(), v)
    {
      var arr := storage.GetAllPairsAt(v.id);
      succs := [];
      for j := 0 to |arr|
        invariant succs == Keys(arr[..j])
      {
        assert Keys(arr[..j + 1]) == Keys(arr[..j]) + [arr[j].key];
        succs := succs + [arr[j].key];
      }
      assert arr[..|arr|] == arr;
    }

    /** `getSource(e)`; no pair holds null, so `getSource(null)` is null. */
    method GetSource(e: Connection?) returns (source: Option<Host>)
      requires Valid()
      ensures e == null ==> source == None
      ensures e != null ==> source == SourceOf(hosts, Lists(), e)
    {
      if e == null {
        return None;
      }
      for i := 0 to |hosts|
        invariant SourceOf(hosts[i..], Lists(), e) == SourceOf(hosts, Lists(), e)
      {
        var arr := storage.GetAllPairsAt(hosts[i].id);
        var j := FindValue(arr, e);
        if j < |arr| {
          return Some(hosts[i]);
        }
        assert hosts[i..][1..] == hosts[i + 1..];
      }
      return None;
    }

    /** `getDest(e)`; no pair holds null, so `getDest(null)` is null. */
    method GetDest(e: Connection?) returns (dest: Option<Host>)
      requires Valid()
      ensures e == null ==> dest == None
      ensures e != null ==> dest == DestOf(hosts, Lists(), e)
    {
      if e == null {
        return None;
      }
      for i := 0 to |hosts|
        invariant DestOf(hosts[i..], Lists(), e) == DestOf(hosts, Lists(), e)
      {
        var arr := storage.GetAllPairsAt(hosts[i].id);
        var j := FindValue(arr, e);
        if j < |arr| {
          return Some(arr[j].key);
        }
        assert hosts[i..][1..] == hosts[i + 1..];
      }
      return None;
    }

    /** `findEdge(v1, v2)`: the last pair of `v1`'s list keyed `v2`, kept
        only when `getSource` and `getDest` confirm it; null when a host
        is null or absent. */
    method FindEdge(v1: Host?, v2: Host?) returns (edge: Option<Connection>)
      requires Valid()
      ensures v1 == null || v2 == null ==> edge == None
      ensures v1 != null && v2 != null ==> edge == FindEdgeSpec(hosts, Lists(), v1, v2)
    {
      if v1 !in hosts || v2 !in hosts {
        return None;
      }
      var arr := storage.GetAllPairsAt(v1.id);
      edge := None;
      for j := 0 to |arr|
        invariant edge == LastValue(arr[..j], v2)
      {
        LastValueSnoc(arr, j, v2);
        if arr[j].key == v2 {
          edge := Some(arr[j].value);
        }
      }
      assert arr[..|arr|] == arr;
      if edge.Some? {
        var source := GetSource(edge.value);
        var dest := GetDest(edge.value);
        if source == Some(v1) && dest == Some(v2) {
          return edge;
        }
      }
      return None;
    }

    /** `addEdge(e, v1, v2)`: an endpoint outside the network is an
        IllegalArgumentException; a pair already joined by `findEdge` is
        refused; otherwise `(v2, e)` goes to the head of `v1`'s list. */
    method AddEdge(e: Connection, v1: Host?, v2: Host?) returns (r: Result<bool>)
      requires Valid()
      modifies storage.storage
      ensures Valid()
      ensures r.Failure? <==> v1 !in hosts || v2 !in hosts
      ensures r == Success(false) <==>
        v1 in hosts && v2 in hosts && old(FindEdgeSpec(hosts, Lists(), v1, v2)).Some?
      ensures r == Success(true) ==>
        Lists() == old(Lists())[v1.id := [KeyValuePair(v2, e)] + old(Lists()[v1.id])]
      ensures r != Success(true) ==> Lists() == old(Lists())
      ensures r == Success(true) && old(Simple(hosts, Lists()) && OnePerPair(hosts, Lists()) && e !in Edges(hosts, Lists())) ==>
        Simple(hosts, Lists()) && OnePerPair(hosts, Lists()) && FindEdgeSpec(hosts, Lists(), v1, v2) == Some(e)
    {
      if v1 !in hosts || v2 !in hosts {
        return Failure(IllegalArgument);
      }
      var found := FindEdge(v1, v2);
      if found.Some? {
        return Success(false);
      }
      ghost var b0 := Lists();
      storage.AddNewEdge(v1.id, e, v2);
      if Simple(hosts, b0) && OnePerPair(hosts, b0) && e !in Edges(hosts, b0) {
        AddEdgeKeepsSimple(hosts, b0, v1, v2, e);
        AddEdgeKeepsOnePerPair(hosts, b0, v1, v2, e);
        AddEdgeThenFind(hosts, b0, v1, v2, e);
      }
      return Success(true);
    }

    /** `addVertex(v)`: null is an IllegalArgumentException; a host already
        present is refused; otherwise it is appended. */
    method AddVertex(v: Host?) returns (r: Result<bool>)
      requires Valid()
      modifies this
      ensures Valid()
      ensures r.Failure? <==> v == null
      ensures r == Success(false) <==> v != null && v in old(hosts)
      ensures r == Success(true) ==> hosts == old(hosts) + [v]
      ensures r != Success(true) ==> hosts == old(hosts)
    {
      if v == null {
        return Failure(IllegalArgument);
      }
      if v in hosts {
        return Success(false);
      }
      hosts := hosts + [v];
      return Success(true);
    }

    /** `removeEdge(e)`: each host's list is walked over a snapshot, and at
        each pair holding `e` the pair's key is removed from the live list.
        The lists must have distinct keys for that to remove `e` alone. */
    method RemoveEdge(e: Connection?) returns (removed: bool)
      requires Valid() && OnePerPair(hosts, Lists())
      modifies storage.storage
      ensures Valid()
      ensures removed <==> e != null && e in old(Edges(hosts, Lists()))
      ensures !removed ==> Lists() == old(Lists())
      ensures removed ==>
        forall i :: 0 <= i < |hosts| ==> Lists()[hosts[i].id] == WithoutValue(old(Lists()[hosts[i].id]), e)
      ensures forall x :: 0 <= x < MaxNetworkSize && !HasHostWithId(hosts, x) ==> Lists()[x] == old(Lists()[x])
      ensures removed ==> e !in Edges(hosts, Lists())
      ensures removed ==> forall c: Connection :: c != e ==>
        (c in Edges(hosts, Lists()) <==> c in old(Edges(hosts, Lists())))
    {
      if e == null {
        return false;
      }
      var edges := GetEdges();
      if e !in edges {
        return false;
      }
      var edge: Connection := e;
      ghost var b0 := Lists();
      DropConnectionEverywhere(edge);
      forall c: Connection
        ensures e !in Edges(hosts, Lists())
        ensures c != e ==> (c in Edges(hosts, Lists()) <==> c in Edges(hosts, b0))
      {
        RemoveEdgeEdges(hosts, b0, Lists(), edge, c);
      }
      return true;
    }

    /** `removeVertex(v)`: each host's list is walked over a snapshot, and at
        each pair keyed `v` key `v` is removed from the live list; then `v`
        leaves the host list. */
    method RemoveVertex(v: Host?) returns (removed: bool)
      requires Valid()
      modifies this, storage.storage
      ensures Valid()
      ensures removed <==> v != null && v in old(hosts)
      ensures !removed ==> hosts == old(hosts) && Lists() == old(Lists())
      ensures removed ==> hosts == RemoveFirst<Host>(old(hosts), v) && v !in hosts
      ensures removed ==> forall i :: 0 <= i < |old(hosts)| ==>
        Lists()[old(hosts)[i].id] == WithoutKey(old(Lists())[old(hosts)[i].id], v)
      ensures forall x :: 0 <= x < MaxNetworkSize && !HasHostWithId(old(hosts), x) ==> Lists()[x] == old(Lists()[x])
      ensures removed ==> Preds(hosts, Lists(), v) == [] && InEdges(hosts, Lists(), v) == []
    {
      if v == null || v !in hosts {
        return false;
      }
      var vertex: Host := v;
      ghost var b0 := Lists();
      ghost var hs0 := hosts;
      DropKeyEverywhere(vertex);
      RemoveFirstDistinct(hosts, vertex);
      hosts := RemoveFirst(hosts, vertex);
      RemoveVertexNoInEdges(hs0, hosts, b0, Lists(), vertex);
      return true;
    }

    /** The walk of `removeVertex` over the lists of all hosts, in host
        order. */
    method DropKeyEverywhere(v: Host)
      requires Valid()
      modifies storage.storage
      ensures forall i :: 0 <= i < |hosts| ==> Lists()[hosts[i].id] == WithoutKey(old(Lists()[hosts[i].id]), v)
      ensures forall x :: 0 <= x < MaxNetworkSize && !HasHostWithId(hosts, x) ==> Lists()[x] == old(Lists()[x])
    {
      ghost var b0 := Lists();
      ghost var f := c => WithoutKey(c, v);
      for i := 0 to |hosts|
        invariant RewrittenUpTo(hosts, i, b0, Lists(), f)
      {
        var id := hosts[i].id;
        ghost var b := Lists();
        RewrittenAt(hosts, i, b0, b, f);
        WithoutKeyTwice(b0[id], v);
        DropKey(id, v);
        RewriteStep(hosts, i, b0, b, Lists(), f);
      }
      RewrittenAll(hosts, b0, Lists(), f);
    }

    /** The walk of `removeEdge` over the lists of all hosts, in host order. */
    method DropConnectionEverywhere(e: Connection)
      requires Valid() && OnePerPair(hosts, Lists())
      modifies storage.storage
      ensures forall i :: 0 <= i < |hosts| ==> Lists()[hosts[i].id] == WithoutValue(old(Lists()[hosts[i].id]), e)
      ensures forall x :: 0 <= x < MaxNetworkSize && !HasHostWithId(hosts, x) ==> Lists()[x] == old(Lists()[x])
    {
      ghost var b0 := Lists();
      ghost var f := c => WithoutValue(c, e);
      for i := 0 to |hosts|
        invariant RewrittenUpTo(hosts, i, b0, Lists(), f)
      {
        var id := hosts[i].id;
        ghost var b := Lists();
        RewrittenAt(hosts, i, b0, b, f);
        WithoutValueDistinct(b0[id], e);
        WithoutValueTwice(b0[id], e);
        DropConnection(id, e);
        RewriteStep(hosts, i, b0, b, Lists(), f);
      }
      RewrittenAll(hosts, b0, Lists(), f);
    }

    /** The inner walk of `removeEdge` over list `id`: a snapshot is taken,
        and at each of its pairs holding `e` that pair's key is removed from
        the live list. With distinct keys this drops exactly the pairs
        holding `e`. */
    method DropConnection(id: HostId, e: Connection)
      requires storage.storage.Length == MaxNetworkSize && DistinctKeys(storage.storage[id])
      modifies storage.storage
      ensures Lists() == old(Lists())[id := WithoutValue(old(Lists()[id]), e)]
    {
      var arr := storage.GetAllPairsAt(id);
      ghost var before := Lists();
      assert WithoutValue(arr[..0], e) + arr[0..] == arr;
      assert before[id := arr] == before;
      for j := 0 to |arr|
        invariant Lists() == before[id := WithoutValue(arr[..j], e) + arr[j..]]
      {
        DropValueStep(arr, j, e);
        if arr[j].value == e {
          storage.RemovePair(id, arr[j].key);
        }
      }
      assert arr[..|arr|] == arr && arr[|arr|..] == [];
      assert WithoutValue(arr[..|arr|], e) + arr[|arr|..] == WithoutValue(arr, e);
    }

    /** The inner walk of `removeVertex` over list `id`: a snapshot is taken,
        and at each of its pairs keyed `v` key `v` is removed from the live
        list, which ends up without any pair keyed `v`. */
    method DropKey(id: HostId, v: Host)
      requires storage.storage.Length == MaxNetworkSize
      modifies storage.storage
      ensures Lists() == old(Lists())[id := WithoutKey(old(Lists()[id]), v)]
    {
      var arr := storage.GetAllPairsAt(id);
      ghost var before := Lists();
      StripStart(arr, v);
      for j := 0 to |arr|
        invariant Lists() == before[id := Lists()[id]]
        invariant StripPending(arr, j, Lists()[id], v)
      {
        StripStep(arr, j, Lists()[id], v);
        if arr[j].key == v {
          storage.RemovePair(id, arr[j].key);
        }
      }
      StripDone(arr, Lists()[id], v);
    }

    /** `getOpposite(v, e)`: the destination of `e` when `v` is its source,
        its source otherwise. The Java code dereferences the endpoints, so
        `e` must be in the network. */
    method GetOpposite(v: Host?, e: Connection) returns (other: Host)
      requires Valid() && SourceOf(hosts, Lists(), e).Some?
      ensures v == null ==> other == SourceOf(hosts, Lists(), e).value
      ensures v != null ==> other == Opposite(hosts, Lists(), v, e)
    {
      var source := GetSource(e);
      var dest := GetDest(e);
      if source.value == v {
        return dest.value;
      }
      return source.value;
    }

    method GetNeighbors(v: Host?) returns (r: Option<seq<Host>>)
      requires Valid()
      ensures v == null ==> r == None
      ensures v != null ==> r == Neighbors(hosts, Lists(), v)
    {
      if v !in hosts {
        return None;
      }
      var u: Host := v;
      var succs := GetSuccessors(u);
      var preds := GetPredecessors(u);
      var neighbors := succs + preds;
      var loop := FindEdge(u, u);
      if loop.Some? {
        neighbors := RemoveFirst(neighbors, u);
      }
      return Some(neighbors);
    }

    method GetIncidentEdges(v: Host?) returns (r: Option<seq<Connection>>)
      requires Valid()
      ensures v == null ==> r == None
      ensures v != null ==> r == IncidentEdges(hosts, Lists(), v)
    {
      if v !in hosts {
        return None;
      }
      var outs := GetOutEdges(v);
      var ins := GetInEdges(v);
      var edges := outs + ins;
      var loop := FindEdge(v, v);
      if loop.Some? {
        edges := RemoveFirst(edges, loop.value);
      }
      return Some(edges);
    }

    method GetIncidentVertices(e: Connection?) returns (r: Option<seq<Host>>)
      requires Valid()
      ensures e == null ==> r == None
      ensures e != null ==> r == IncidentVertices(hosts, Lists(), e)
    {
      var edges := GetEdges();
      if e !in edges {
        return None;
      }
      EdgesHaveSource(hosts, Lists(), e);
      var source := GetSource(e);
      var dest := GetDest(e);
      var vert := [source.value];
      if source.value != dest.value {
        vert := vert + [dest.value];
      }
      assert vert == [source.value] + if source.value != dest.value then [dest.value] else [];
      return Some(vert);
    }
  }
}
