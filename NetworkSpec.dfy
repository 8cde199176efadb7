/** The directed graph as values: `hs` is the list of hosts in insertion order
    and `b` the adjacency lists, list `h.id` holding a pair `(to, c)` for each
    connection `c` from `h` to `to`, newest first. The queries of the network
    are specified by these functions. */
module Graph {
  import opened Wrappers
  import opened Pairs
  import opened Chains
  import opened Hosts

  type Bucket = Chain<Host, Connection>
  type Adjacency = seq<Bucket>

  /** The sequence with its first occurrence of `x` dropped, as
      `ArrayList.remove(Object)` does. */
  function RemoveFirst<T(==)>(s: seq<T>, x: T): (r: seq<T>)
    ensures x !in s ==> r == s
    ensures multiset(r) == multiset(s) - multiset{x}
  {
    if s == [] then []
    else if s[0] == x then
      assert s == [s[0]] + s[1..];
      s[1..]
    else
      assert s == [s[0]] + s[1..];
      [s[0]] + RemoveFirst(s[1..], x)
  }

  /** `getEdges()`: the connections of every host's list, hosts in order. */
  function Edges(hs: seq<Host>, b: Adjacency): (r: seq<Connection>)
    requires |b| == MaxNetworkSize
  {
    if hs == [] then [] else Edges(hs[..|hs| - 1], b) + Values(b[hs[|hs| - 1].id])
  }

  /** `getInEdges(v)`: the connections into `v`, hosts in order. */
  function InEdges(hs: seq<Host>, b: Adjacency, v: Host): (r: seq<Connection>)
    requires |b| == MaxNetworkSize
  {
    if hs == [] then [] else InEdges(hs[..|hs| - 1], b, v) + ValuesWithKey(b[hs[|hs| - 1].id], v)
  }

  /** `getPredecessors(v)`: the hosts with a connection into `v`. */
  function Preds(hs: seq<Host>, b: Adjacency, v: Host): (r: seq<Host>)
    requires |b| == MaxNetworkSize
  {
    if hs == [] then []
    else Preds(hs[..|hs| - 1], b, v) + (if HasKey(b[hs[|hs| - 1].id], v) then [hs[|hs| - 1]] else [])
  }

  /** `getOutEdges(v)`: the connection of every pair of `v`'s list, head first. */
  function OutEdges(b: Adjacency, v: Host): (r: seq<Connection>)
    requires |b| == MaxNetworkSize
    ensures |r| == |b[v.id]| && forall i :: 0 <= i < |r| ==> r[i] == b[v.id][i].value
  {
    Values(b[v.id])
  }

  /** `getSuccessors(v)`: the key of every pair of `v`'s list, in the order of `getOutEdges(v)`, so the `i`-th successor is where the `i`-th outgoing connection leads. */
  function Successors(b: Adjacency, v: Host): (r: seq<Host>)
    requires |b| == MaxNetworkSize
    ensures |r| == |OutEdges(b, v)|
    ensures forall i :: 0 <= i < |r| ==> KeyValuePair(r[i], OutEdges(b, v)[i]) == b[v.id][i]
  {
    Keys(b[v.id])
  }

  /** `getSource(e)`: the first host, in list order, whose list holds `e`. */
  function SourceOf(hs: seq<Host>, b: Adjacency, e: Connection): (r: Option<Host>)
    requires |b| == MaxNetworkSize
    ensures r.Some? ==> r.value in hs && e in Values(b[r.value.id])
  {
    if hs == [] then None
    else if e in Values(b[hs[0].id]) then Some(hs[0])
    else SourceOf(hs[1..], b, e)
  }

  /** `getDest(e)`: the key of the first pair holding `e` in that host's list. */
  function DestOf(hs: seq<Host>, b: Adjacency, e: Connection): (r: Option<Host>)
    requires |b| == MaxNetworkSize
    ensures r.Some? <==> SourceOf(hs, b, e).Some?
    ensures r.Some? ==> KeyValuePair(r.value, e) in b[SourceOf(hs, b, e).value.id]
  {
    if hs == [] then None
    else if e in Values(b[hs[0].id]) then Some(b[hs[0].id][FirstWithValue(b[hs[0].id], e)].key)
    else DestOf(hs[1..], b, e)
  }

  /** `findEdge(v1, v2)`: the last connection from `v1` keyed `v2`, kept only
      if `getSource` and `getDest` name `v1` and `v2` for it. */
  function FindEdgeSpec(hs: seq<Host>, b: Adjacency, v1: Host, v2: Host): (r: Option<Connection>)
    requires |b| == MaxNetworkSize
    ensures r.Some? ==> v1 in hs && v2 in hs
    ensures r.Some? ==> SourceOf(hs, b, r.value) == Some(v1) && DestOf(hs, b, r.value) == Some(v2)
  {
    if v1 !in hs || v2 !in hs then None
    else match LastValue(b[v1.id], v2)
      case None => None
      case Some(e) =>
        if SourceOf(hs, b, e) == Some(v1) && DestOf(hs, b, e) == Some(v2) then Some(e) else None
  }

  /** `getOpposite(v, e)`: the endpoint of `e` other than `v` (the source
      when `v` is not the source). The Java code dereferences the source, so
      `e` must be in the graph. */
  function Opposite(hs: seq<Host>, b: Adjacency, v: Host, e: Connection): (r: Host)
    requires |b| == MaxNetworkSize && SourceOf(hs, b, e).Some?
  {
    var source := SourceOf(hs, b, e).value;
    if source == v then DestOf(hs, b, e).value else source
  }

  /** `getNeighbors(v)`: successors, then predecessors, with one copy of `v`
      dropped when `v` has a connection to itself; None when `v` is absent. */
  function Neighbors(hs: seq<Host>, b: Adjacency, v: Host): (r: Option<seq<Host>>)
    requires |b| == MaxNetworkSize
  {
    if v !in hs then None
    else
      var all := Successors(b, v) + Preds(hs, b, v);
      Some(if FindEdgeSpec(hs, b, v, v).Some? then RemoveFirst(all, v) else all)
  }

  /** `getIncidentEdges(v)`: outgoing, then incoming connections, with the
      self-loop's one copy dropped; None when `v` is absent. */
  function IncidentEdges(hs: seq<Host>, b: Adjacency, v: Host): (r: Option<seq<Connection>>)
    requires |b| == MaxNetworkSize
  {
    if v !in hs then None
    else
      var all := OutEdges(b, v) + InEdges(hs, b, v);
      Some(match FindEdgeSpec(hs, b, v, v)
        case Some(c) => RemoveFirst(all, c)
        case None => all)
  }

  /** `getIncidentVertices(e)`: source, then destination unless it is the
      source; None when `e` is not in the graph. */
  function IncidentVertices(hs: seq<Host>, b: Adjacency, e: Connection): (r: Option<seq<Host>>)
    requires |b| == MaxNetworkSize
  {
    if e !in Edges(hs, b) then None
    else
      EdgesHaveSource(hs, b, e);
      var source := SourceOf(hs, b, e).value;
      var dest := DestOf(hs, b, e).value;
      Some([source] + if source != dest then [dest] else [])
  }

  // ---------------------------------------------------------------------------
  // Well-formed graphs.

  ghost predicate DistinctHosts(hs: seq<Host>)
  {
    forall i, j :: 0 <= i < j < |hs| ==> hs[i] != hs[j]
  }

  /** No two hosts share an id, and no connection object is used twice. */
  ghost predicate Simple(hs: seq<Host>, b: Adjacency)
    requires |b| == MaxNetworkSize
  {
    (forall i, j :: 0 <= i < j < |hs| ==> hs[i].id != hs[j].id) &&
    (forall i, j, t, u ::
       (0 <= i < |hs| && 0 <= j < |hs| && 0 <= t < |b[hs[i].id]| && 0 <= u < |b[hs[j].id]| &&
        b[hs[i].id][t].value == b[hs[j].id][u].value) ==> i == j && t == u)
  }

  /** At most one connection from each host to each other host. */
  ghost predicate OnePerPair(hs: seq<Host>, b: Adjacency)
    requires |b| == MaxNetworkSize
  {
    forall i :: 0 <= i < |hs| ==> DistinctKeys(b[hs[i].id])
  }

  // ---------------------------------------------------------------------------
  // Lemmas.

  lemma {:induction false} EdgesMember(hs: seq<Host>, b: Adjacency, e: Connection)
    requires |b| == MaxNetworkSize
    ensures e in Edges(hs, b) <==> exists h :: h in hs && e in Values(b[h.id])
  {
    if hs != [] {
      var front, last := hs[..|hs| - 1], hs[|hs| - 1];
      EdgesMember(front, b, e);
      assert hs == front + [last];
      if e in Edges(hs, b) && e !in Edges(front, b) {
        assert last in hs && e in Values(b[last.id]);
      }
    }
  }



  /** `getSource(e)` is null exactly when no host's list holds `e`. */
  lemma {:induction false} SourceNone(hs: seq<Host>, b: Adjacency, e: Connection)
    requires |b| == MaxNetworkSize
    ensures SourceOf(hs, b, e).None? <==> (forall i :: 0 <= i < |hs| ==> e !in Values(b[hs[i].id]))
  {
    if hs != [] {
      SourceNone(hs[1..], b, e);
      if e !in Values(b[hs[0].id]) {
        forall i | 0 < i < |hs|
          ensures hs[i] == hs[1..][i - 1]
        {
        }
      }
    }
  }

  lemma EdgesHaveSource(hs: seq<Host>, b: Adjacency, e: Connection)
    requires |b| == MaxNetworkSize
    ensures e in Edges(hs, b) <==> SourceOf(hs, b, e).Some?
    ensures e in Edges(hs, b) ==> DestOf(hs, b, e).Some?
  {
    EdgesMember(hs, b, e);
    SourceNone(hs, b, e);
  }

  lemma {:induction false} PredsMember(hs: seq<Host>, b: Adjacency, v: Host, h: Host)
    requires |b| == MaxNetworkSize
    ensures h in Preds(hs, b, v) <==> h in hs && HasKey(b[h.id], v)
  {
    if hs != [] {
      var front := hs[..|hs| - 1];
      PredsMember(front, b, v, h);
      assert hs == front + [hs[|hs| - 1]];
    }
  }

  /** `getPredecessors` lists each host at most once. */
  lemma {:induction false} PredsDistinct(hs: seq<Host>, b: Adjacency, v: Host)
    requires |b| == MaxNetworkSize && DistinctHosts(hs)
    ensures DistinctHosts(Preds(hs, b, v))
  {
    if hs != [] {
      var front := hs[..|hs| - 1];
      var last := hs[|hs| - 1];
      assert DistinctHosts(front);
      PredsDistinct(front, b, v);
      var p := Preds(front, b, v);
      forall x | 0 <= x < |p|
        ensures p[x] != last
      {
        PredsMember(front, b, v, p[x]);
      }
      var r := p + (if HasKey(b[last.id], v) then [last] else []);
      forall x, y | 0 <= x < y < |r|
        ensures r[x] != r[y]
      {
        if y < |p| {
          assert r[x] == p[x] && r[y] == p[y];
        } else {
          assert r[x] == p[x];
        }
      }
    }
  }

  lemma {:induction false} InEdgesMember(hs: seq<Host>, b: Adjacency, v: Host, e: Connection)
    requires |b| == MaxNetworkSize
    ensures e in InEdges(hs, b, v) <==> exists h :: h in hs && KeyValuePair(v, e) in b[h.id]
  {
    if hs != [] {
      var front, last := hs[..|hs| - 1], hs[|hs| - 1];
      var c := b[last.id];
      InEdgesMember(front, b, v, e);
      ValuesWithKeyMember(c, v);
      var w := ValuesWithKey(c, v);
      assert e in w <==> KeyValuePair(v, e) in c by {
        if e in w {
          var t :| 0 <= t < |w| && w[t] == e;
        }
        if KeyValuePair(v, e) in c {
          var t :| 0 <= t < |c| && c[t] == KeyValuePair(v, e);
        }
      }
      assert hs == front + [last];
      if e in InEdges(hs, b, v) && e !in InEdges(front, b, v) {
        assert last in hs && KeyValuePair(v, e) in b[last.id];
      }
    }
  }



  lemma SimpleTail(hs: seq<Host>, b: Adjacency)
    requires |b| == MaxNetworkSize && Simple(hs, b) && hs != []
    ensures Simple(hs[1..], b)
  {
    var tl := hs[1..];
    forall i, j, t, u |
      (0 <= i < |tl| && 0 <= j < |tl| && 0 <= t < |b[tl[i].id]| && 0 <= u < |b[tl[j].id]| &&
       b[tl[i].id][t].value == b[tl[j].id][u].value)
      ensures i == j && t == u
    {
      assert tl[i] == hs[i + 1] && tl[j] == hs[j + 1];
    }
    forall i, j | 0 <= i < j < |tl|
      ensures tl[i].id != tl[j].id
    {
      assert tl[i] == hs[i + 1] && tl[j] == hs[j + 1];
    }
  }

  /** In a simple graph `getSource` and `getDest` of a connection are the
      host whose list holds it and the key it is stored under. */
  lemma SourceOfUnique(hs: seq<Host>, b: Adjacency, i: nat, t: nat)
    requires |b| == MaxNetworkSize && Simple(hs, b)
    requires i < |hs| && t < |b[hs[i].id]|
    ensures SourceOf(hs, b, b[hs[i].id][t].value) == Some(hs[i])
    ensures DestOf(hs, b, b[hs[i].id][t].value) == Some(b[hs[i].id][t].key)
  {
    SourceOfOnly(hs, b, i, t, b[hs[i].id][t].value);
  }

  /** A connection held only by pair `t` of host `i`'s list has that host
      as its source and that pair's key as its destination. */
  lemma {:induction false} SourceOfOnly(hs: seq<Host>, b: Adjacency, i: nat, t: nat, e: Connection)
    requires |b| == MaxNetworkSize && i < |hs| && t < |b[hs[i].id]| && b[hs[i].id][t].value == e
    requires forall j, u :: 0 <= j < |hs| && 0 <= u < |b[hs[j].id]| && b[hs[j].id][u].value == e ==> j == i && u == t
    ensures SourceOf(hs, b, e) == Some(hs[i]) && DestOf(hs, b, e) == Some(b[hs[i].id][t].key)
  {
    var c := b[hs[0].id];
    if i == 0 {
      assert Values(c)[t] == e;
      var j := FirstWithValue(c, e);
      assert c[j].value == e;
    } else {
      forall u | 0 <= u < |c|
        ensures c[u].value != e
      {
      }
      assert e !in Values(c);
      var tl := hs[1..];
      forall j, u | 0 <= j < |tl| && 0 <= u < |b[tl[j].id]| && b[tl[j].id][u].value == e
        ensures j == i - 1 && u == t
      {
        assert tl[j] == hs[j + 1];
      }
      assert tl[i - 1] == hs[i];
      SourceOfOnly(tl, b, i - 1, t, e);
    }
  }

  /** A connection `findEdge` returns is a pair `(v2, e)` of `v1`'s list. */
  lemma FindEdgeSound(hs: seq<Host>, b: Adjacency, v1: Host, v2: Host)
    requires |b| == MaxNetworkSize
    ensures FindEdgeSpec(hs, b, v1, v2).Some? ==>
      KeyValuePair(v2, FindEdgeSpec(hs, b, v1, v2).value) in b[v1.id]
  {
  }

  /** In a simple graph `findEdge(v1, v2)` finds a connection exactly when
      `v1`'s list has a pair keyed `v2`. */
  lemma FindEdgeComplete(hs: seq<Host>, b: Adjacency, v1: Host, v2: Host)
    requires |b| == MaxNetworkSize && Simple(hs, b) && v1 in hs && v2 in hs
    ensures FindEdgeSpec(hs, b, v1, v2).Some? <==> HasKey(b[v1.id], v2)
  {
    if HasKey(b[v1.id], v2) {
      var e := LastValue(b[v1.id], v2).value;
      var j :| 0 <= j < |b[v1.id]| && b[v1.id][j] == KeyValuePair(v2, e) &&
        forall x :: j < x < |b[v1.id]| ==> b[v1.id][x].key != v2;
      var i :| 0 <= i < |hs| && hs[i] == v1;
      SourceOfUnique(hs, b, i, j);
    }
  }

  /** No pair of a host's list holds `e`. */
  lemma FreshConnection(hs: seq<Host>, b: Adjacency, e: Connection)
    requires |b| == MaxNetworkSize && e !in Edges(hs, b)
    ensures forall i, t :: 0 <= i < |hs| && 0 <= t < |b[hs[i].id]| ==> b[hs[i].id][t].value != e
  {
    EdgesMember(hs, b, e);
    forall i, t | 0 <= i < |hs| && 0 <= t < |b[hs[i].id]|
      ensures b[hs[i].id][t].value != e
    {
      assert Values(b[hs[i].id])[t] == b[hs[i].id][t].value;
    }
  }

  /** `addEdge` with a connection not yet in the graph keeps it simple. */
  lemma AddEdgeKeepsSimple(hs: seq<Host>, b: Adjacency, v1: Host, v2: Host, e: Connection)
    requires |b| == MaxNetworkSize && Simple(hs, b) && e !in Edges(hs, b)
    ensures Simple(hs, b[v1.id := [KeyValuePair(v2, e)] + b[v1.id]])
  {
    var b': Adjacency := b[v1.id := [KeyValuePair(v2, e)] + b[v1.id]];
    FreshConnection(hs, b, e);
    forall i, j, t, u |
      (0 <= i < |hs| && 0 <= j < |hs| && 0 <= t < |b'[hs[i].id]| && 0 <= u < |b'[hs[j].id]| &&
       b'[hs[i].id][t].value == b'[hs[j].id][u].value)
      ensures i == j && t == u
    {
      var t0 := if hs[i].id == v1.id then t - 1 else t;
      var u0 := if hs[j].id == v1.id then u - 1 else u;
      if t0 >= 0 {
        assert b'[hs[i].id][t] == b[hs[i].id][t0];
      }
      if u0 >= 0 {
        assert b'[hs[j].id][u] == b[hs[j].id][u0];
      }
    }
  }

  /** `addEdge` after a failed `findEdge` keeps at most one connection per
      ordered pair of hosts. */
  lemma AddEdgeKeepsOnePerPair(hs: seq<Host>, b: Adjacency, v1: Host, v2: Host, e: Connection)
    requires |b| == MaxNetworkSize && Simple(hs, b) && OnePerPair(hs, b)
    requires v1 in hs && v2 in hs && FindEdgeSpec(hs, b, v1, v2).None?
    ensures OnePerPair(hs, b[v1.id := [KeyValuePair(v2, e)] + b[v1.id]])
  {
    FindEdgeComplete(hs, b, v1, v2);
    var i1 :| 0 <= i1 < |hs| && hs[i1] == v1;
    var c := [KeyValuePair(v2, e)] + b[v1.id];
    forall x, y | 0 <= x < y < |c|
      ensures c[x].key != c[y].key
    {
      assert c[y] == b[v1.id][y - 1];
      if x > 0 {
        assert c[x] == b[v1.id][x - 1];
      }
    }
  }

  /** After `addEdge(e, v1, v2)` succeeds, `findEdge(v1, v2)` returns `e`. */
  lemma AddEdgeThenFind(hs: seq<Host>, b: Adjacency, v1: Host, v2: Host, e: Connection)
    requires |b| == MaxNetworkSize && Simple(hs, b) && OnePerPair(hs, b) && e !in Edges(hs, b)
    requires v1 in hs && v2 in hs && FindEdgeSpec(hs, b, v1, v2).None?
    ensures FindEdgeSpec(hs, b[v1.id := [KeyValuePair(v2, e)] + b[v1.id]], v1, v2) == Some(e)
  {
    var b': Adjacency := b[v1.id := [KeyValuePair(v2, e)] + b[v1.id]];
    AddEdgeKeepsSimple(hs, b, v1, v2, e);
    AddEdgeKeepsOnePerPair(hs, b, v1, v2, e);
    assert b'[v1.id][0] == KeyValuePair(v2, e);
    FindEdgeComplete(hs, b', v1, v2);
    FindEdgeSound(hs, b', v1, v2);
    var i1 :| 0 <= i1 < |hs| && hs[i1] == v1;
    assert DistinctKeys(b'[v1.id]);
  }

  /** The other end of a connection of a simple graph. */
  lemma OppositeEnds(hs: seq<Host>, b: Adjacency, i: nat, t: nat)
    requires |b| == MaxNetworkSize && Simple(hs, b)
    requires i < |hs| && t < |b[hs[i].id]|
    ensures SourceOf(hs, b, b[hs[i].id][t].value).Some?
    ensures Opposite(hs, b, hs[i], b[hs[i].id][t].value) == b[hs[i].id][t].key
    ensures b[hs[i].id][t].key != hs[i] ==>
      Opposite(hs, b, b[hs[i].id][t].key, b[hs[i].id][t].value) == hs[i]
  {
    SourceOfUnique(hs, b, i, t);
  }

  /** In a simple graph `getIncidentVertices` of a listed connection is its
      source, then its destination when that is another host. */
  lemma IncidentVerticesEnds(hs: seq<Host>, b: Adjacency, i: nat, t: nat)
    requires |b| == MaxNetworkSize && Simple(hs, b)
    requires i < |hs| && t < |b[hs[i].id]|
    ensures IncidentVertices(hs, b, b[hs[i].id][t].value) ==
      Some(if b[hs[i].id][t].key == hs[i] then [hs[i]] else [hs[i], b[hs[i].id][t].key])
  {
    var e := b[hs[i].id][t].value;
    SourceOfUnique(hs, b, i, t);
    assert e in Edges(hs, b) by {
      EdgesMember(hs, b, e);
      assert Values(b[hs[i].id])[t] == e;
    }
    var source := SourceOf(hs, b, e).value;
    var dest := DestOf(hs, b, e).value;
    assert source == hs[i] && dest == b[hs[i].id][t].key;
    assert IncidentVertices(hs, b, e) == Some([source] + if source != dest then [dest] else []);
    if source != dest {
      assert [source] + [dest] == [hs[i], dest];
    } else {
      assert [source] + [] == [hs[i]];
    }
  }

  /** After `removeEdge(e)` rewrites every host's list without `e`, `e` is no
      longer an edge and every other edge still is. */
  lemma RemoveEdgeEdges(hs: seq<Host>, b: Adjacency, b': Adjacency, e: Connection, other: Connection)
    requires |b| == MaxNetworkSize && |b'| == MaxNetworkSize
    requires forall i :: 0 <= i < |hs| ==> b'[hs[i].id] == WithoutValue(b[hs[i].id], e)
    ensures e !in Edges(hs, b')
    ensures other != e ==> (other in Edges(hs, b') <==> other in Edges(hs, b))
  {
    EdgesMember(hs, b', e);
    EdgesMember(hs, b', other);
    EdgesMember(hs, b, other);
    forall i | 0 <= i < |hs|
      ensures e !in Values(b'[hs[i].id])
      ensures other != e ==> (other in Values(b'[hs[i].id]) <==> other in Values(b[hs[i].id]))
    {
      WithoutValueValues(b[hs[i].id], e, other);
    }
  }

  /** After `removeVertex(v)` strips `v` from the list of every host, no host
      of `hs2` (hosts drawn from `hs`) has a connection into `v`. */
  lemma RemoveVertexNoInEdges(hs: seq<Host>, hs2: seq<Host>, b: Adjacency, b': Adjacency, v: Host)
    requires |b| == MaxNetworkSize && |b'| == MaxNetworkSize
    requires forall i :: 0 <= i < |hs| ==> b'[hs[i].id] == WithoutKey(b[hs[i].id], v)
    requires forall i :: 0 <= i < |hs2| ==> hs2[i] in hs
    ensures Preds(hs2, b', v) == [] && InEdges(hs2, b', v) == []
  {
    forall i | 0 <= i < |hs2|
      ensures !HasKey(b'[hs2[i].id], v)
    {
      assert hs2[i] in hs;
      var x :| 0 <= x < |hs| && hs[x] == hs2[i];
    }
    NoPredsNoInEdges(hs2, b', v);
  }

  lemma {:induction false} NoPredsNoInEdges(hs: seq<Host>, b: Adjacency, v: Host)
    requires |b| == MaxNetworkSize
    requires forall i :: 0 <= i < |hs| ==> !HasKey(b[hs[i].id], v)
    ensures Preds(hs, b, v) == [] && InEdges(hs, b, v) == []
  {
    if hs != [] {
      var front := hs[..|hs| - 1];
      assert forall i :: 0 <= i < |front| ==> front[i] == hs[i];
      NoPredsNoInEdges(front, b, v);
      ValuesWithKeyMember(b[hs[|hs| - 1].id], v);
    }
  }

  /** Some host of `hs` has id `x`, so list `x` is one the network walks. */
  predicate HasHostWithId(hs: seq<Host>, x: int)
  {
    exists i :: 0 <= i < |hs| && hs[i].id == x
  }

  /** `hosts.remove(v)` on a list without repeats drops `v` and nothing else,
      keeping the order of the others. */
  lemma RemoveFirstDistinct(s: seq<Host>, x: Host)
    requires DistinctHosts(s)
    ensures DistinctHosts(RemoveFirst(s, x)) && x !in RemoveFirst(s, x)
    ensures forall i :: 0 <= i < |RemoveFirst(s, x)| ==> RemoveFirst(s, x)[i] in s
  {
    RemoveFirstStaysDistinct(s, x);
    RemoveFirstDropsAll(s, x);
    var r := RemoveFirst(s, x);
    forall i | 0 <= i < |r|
      ensures r[i] in s
    {
      assert r[i] in multiset(r);
    }
  }

  lemma {:induction false} RemoveFirstStaysDistinct(s: seq<Host>, x: Host)
    requires DistinctHosts(s)
    ensures DistinctHosts(RemoveFirst(s, x))
  {
    if s != [] {
      var tail := s[1..];
      assert DistinctHosts(tail) by {
        forall i, j | 0 <= i < j < |tail|
          ensures tail[i] != tail[j]
        {
          assert tail[i] == s[i + 1] && tail[j] == s[j + 1];
        }
      }
      if s[0] != x {
        RemoveFirstStaysDistinct(tail, x);
        var r := RemoveFirst(tail, x);
        assert s[0] !in tail by {
          forall t | 0 <= t < |tail|
            ensures tail[t] != s[0]
          {
            assert tail[t] == s[t + 1];
          }
        }
        assert multiset(r)[s[0]] <= multiset(tail)[s[0]] == 0;
        ConsDistinct(s[0], r);
      }
    }
  }

  lemma {:induction false} RemoveFirstDropsAll(s: seq<Host>, x: Host)
    requires DistinctHosts(s)
    ensures x !in RemoveFirst(s, x)
  {
    if s != [] {
      assert DistinctHosts(s[1..]);
      if s[0] == x {
        forall i | 0 <= i < |s[1..]|
          ensures s[1..][i] != x
        {
          assert s[1..][i] == s[i + 1];
        }
      } else {
        RemoveFirstDropsAll(s[1..], x);
      }
    }
  }

  lemma ConsDistinct(h: Host, r: seq<Host>)
    requires DistinctHosts(r) && h !in r
    ensures DistinctHosts([h] + r)
  {
    var w := [h] + r;
    forall i, j | 0 <= i < j < |w|
      ensures w[i] != w[j]
    {
      if i > 0 {
        assert w[i] == r[i - 1] && w[j] == r[j - 1];
      } else {
        assert w[j] == r[j - 1];
      }
    }
  }

  /** Dropping one copy of `x` keeps every other element. */
  lemma RemoveFirstKeepsOthers<T>(s: seq<T>, x: T, y: T)
    requires y != x
    ensures y in RemoveFirst(s, x) <==> y in s
  {
    assert multiset(RemoveFirst(s, x))[y] == multiset(s)[y];
  }

  /** `getNeighbors(v)` holds another host `u` exactly when there is a
      connection from `v` to `u` or from `u` to `v`. */
  lemma NeighborsMember(hs: seq<Host>, b: Adjacency, v: Host, u: Host)
    requires |b| == MaxNetworkSize && v in hs && u != v
    ensures u in Neighbors(hs, b, v).value <==> HasKey(b[v.id], u) || (u in hs && HasKey(b[u.id], v))
  {
    var all := Successors(b, v) + Preds(hs, b, v);
    RemoveFirstKeepsOthers(all, v, u);
    PredsMember(hs, b, v, u);
    var ks := Keys(b[v.id]);
    if u in ks {
      var t :| 0 <= t < |ks| && ks[t] == u;
      assert b[v.id][t].key == u;
    }
    if HasKey(b[v.id], u) {
      var t :| 0 <= t < |b[v.id]| && b[v.id][t].key == u;
      assert ks[t] == u;
    }
  }

  /** `getIncidentEdges(v)` holds a connection other than the self-loop
      `findEdge(v, v)` exactly when it leaves `v` or enters `v`. */
  lemma IncidentEdgesMember(hs: seq<Host>, b: Adjacency, v: Host, c: Connection)
    requires |b| == MaxNetworkSize && v in hs && FindEdgeSpec(hs, b, v, v) != Some(c)
    ensures c in IncidentEdges(hs, b, v).value <==>
      c in OutEdges(b, v) || exists i :: 0 <= i < |hs| && KeyValuePair(v, c) in b[hs[i].id]
  {
    var all := OutEdges(b, v) + InEdges(hs, b, v);
    InEdgesMember(hs, b, v, c);
    if FindEdgeSpec(hs, b, v, v).Some? {
      RemoveFirstKeepsOthers(all, FindEdgeSpec(hs, b, v, v).value, c);
    }
  }

  lemma EdgesSnoc(hs: seq<Host>, i: nat, b: Adjacency)
    requires |b| == MaxNetworkSize && i < |hs|
    ensures Edges(hs[..i + 1], b) == Edges(hs[..i], b) + Values(b[hs[i].id])
  {
    assert hs[..i + 1][..i] == hs[..i];
  }

  lemma InEdgesSnoc(hs: seq<Host>, i: nat, b: Adjacency, v: Host)
    requires |b| == MaxNetworkSize && i < |hs|
    ensures InEdges(hs[..i + 1], b, v) == InEdges(hs[..i], b, v) + ValuesWithKey(b[hs[i].id], v)
  {
    assert hs[..i + 1][..i] == hs[..i];
  }

  lemma PredsSnoc(hs: seq<Host>, i: nat, b: Adjacency, v: Host)
    requires |b| == MaxNetworkSize && i < |hs|
    ensures Preds(hs[..i + 1], b, v) == Preds(hs[..i], b, v) + (if HasKey(b[hs[i].id], v) then [hs[i]] else [])
  {
    assert hs[..i + 1][..i] == hs[..i];
  }

  lemma HasHostWithIdSnoc(hs: seq<Host>, i: nat, x: int)
    requires i < |hs|
    ensures HasHostWithId(hs[..i + 1], x) <==> HasHostWithId(hs[..i], x) || hs[i].id == x
  {
    if HasHostWithId(hs[..i], x) {
      var t :| 0 <= t < i && hs[..i][t].id == x;
      assert hs[..i + 1][t].id == x;
    }
    if HasHostWithId(hs[..i + 1], x) {
      var t :| 0 <= t < i + 1 && hs[..i + 1][t].id == x;
      if t < i {
        assert hs[..i][t].id == x;
      }
    }
    assert hs[..i + 1][i] == hs[i];
  }

  lemma HasHostWithIdPrefix(hs: seq<Host>, i: nat, t: nat)
    requires t < i <= |hs|
    ensures HasHostWithId(hs[..i], hs[t].id)
  {
    assert hs[..i][t] == hs[t];
  }

  /** The walk over the host list has rewritten, with `f`, the lists of the
      first `i` hosts; the list of every id that none of them has is as in
      `b0`. */
  ghost predicate RewrittenUpTo(hs: seq<Host>, i: nat, b0: Adjacency, b: Adjacency,
                                f: Chain<Host, Connection> -> Chain<Host, Connection>)
    requires i <= |hs| && |b0| == MaxNetworkSize && |b| == MaxNetworkSize
  {
    (forall t :: 0 <= t < i ==> b[hs[t].id] == f(b0[hs[t].id])) &&
    (forall x :: 0 <= x < MaxNetworkSize && !HasHostWithId(hs[..i], x) ==> b[x] == b0[x])
  }

  /** Before host `i` is visited its list is untouched, or already
      rewritten when an earlier host shares its id. */
  lemma RewrittenAt(hs: seq<Host>, i: nat, b0: Adjacency, b: Adjacency,
                    f: Chain<Host, Connection> -> Chain<Host, Connection>)
    requires i < |hs| && |b0| == MaxNetworkSize && |b| == MaxNetworkSize && RewrittenUpTo(hs, i, b0, b, f)
    ensures b[hs[i].id] == b0[hs[i].id] || b[hs[i].id] == f(b0[hs[i].id])
  {
    if HasHostWithId(hs[..i], hs[i].id) {
      var t :| 0 <= t < i && hs[..i][t].id == hs[i].id;
      assert hs[t] == hs[..i][t];
    }
  }

  /** Rewriting the list of host `i`, with an `f` that changes nothing the
      second time, extends the walk by one host. */
  lemma RewriteStep(hs: seq<Host>, i: nat, b0: Adjacency, b: Adjacency, b': Adjacency,
                    f: Chain<Host, Connection> -> Chain<Host, Connection>)
    requires i < |hs| && |b0| == MaxNetworkSize && |b| == MaxNetworkSize && RewrittenUpTo(hs, i, b0, b, f)
    requires f(f(b0[hs[i].id])) == f(b0[hs[i].id])
    requires b' == b[hs[i].id := f(b[hs[i].id])]
    ensures RewrittenUpTo(hs, i + 1, b0, b', f)
  {
    RewrittenAt(hs, i, b0, b, f);
    forall x | 0 <= x < MaxNetworkSize
      ensures HasHostWithId(hs[..i + 1], x) <==> HasHostWithId(hs[..i], x) || hs[i].id == x
    {
      HasHostWithIdSnoc(hs, i, x);
    }
  }

  /** A walk over every host rewrote exactly the lists of the hosts. */
  lemma RewrittenAll(hs: seq<Host>, b0: Adjacency, b: Adjacency,
                     f: Chain<Host, Connection> -> Chain<Host, Connection>)
    requires |b0| == MaxNetworkSize && |b| == MaxNetworkSize && RewrittenUpTo(hs, |hs|, b0, b, f)
    ensures forall i :: 0 <= i < |hs| ==> b[hs[i].id] == f(b0[hs[i].id])
    ensures forall x :: 0 <= x < MaxNetworkSize && !HasHostWithId(hs, x) ==> b[x] == b0[x]
  {
    assert hs[..|hs|] == hs;
  }
}
