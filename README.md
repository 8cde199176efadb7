# Network Simulator: routing core in Dafny

The model covers the routing core of the network simulator. It has four layers.

- **The bucket store** (`ArrayOfListsOfPairs`). An array whose slots head singly linked chains of key-value pairs.
- **The hash table** (`HashTable`). It is built on the bucket store and keeps an entry count and a capacity. It grows ×3 when its load passes 3.0.
- **The network** (`Network`). A directed graph with two parts:
  - a list of hosts in the order they were added;
  - one adjacency list per host id, `MAX_NETWORK_SIZE` = 255 of them, stored in a bucket store. List `h.id` holds a pair `(to, c)` for each connection `c` from `h` to `to`.
- **The router** (`ThreeTenNetwork`). It runs Dijkstra's algorithm from every host. Each run fills the start host's routing table with the next hop towards every host it reaches. The router then replays a message one hop at a time (`step`, `route`, `finish`).

`KeyValuePair` is the value type underneath. Its equality and hash look at the key only.

## How each layer is modelled

**Bucket store.**
- It is a class with an `array<seq<KeyValuePair>>`; each slot is the chain, head first.
- The Java `hashCode()` of keys is a function value `hash`, and the truncating Java `%` is written out (`Chains.JavaRem`).
- The chains as values, and the tables of chains as values, are specified in the modules `Chains` and `BucketSpec`.
- `removePair` is modelled as written. The walk moves its `previous` pointer onto a node it has just unlinked. In a run of equal keys, every second match therefore stays: `Chains.RemovePairDuplicateRun` shows one such chain. In a hash table, keys are distinct, so the table never meets this case (`Table.RepresentsRemove`).

**Hash table.**
- It is a class with a ghost map `Contents`; `Valid()` ties the chains to that map.
- Each operation states its new map, its entry count and its capacity.

**Network.**
- It is a class with the host list and the bucket store. Every query is stated as a function of the host list and of the adjacency lists as values (module `Graph`).
- Lemmas there say what the queries mean. For example:
  - `findEdge` is confirmed by `getSource` and `getDest`;
  - `addEdge` keeps at most one connection per ordered pair;
  - `removeVertex` leaves no connection into the removed host.

**Router.**
- `DijkstraNode` is a datatype. The nodes are a sequence indexed like the host list.
- The host-to-node `HashTable` maps each host to its index.
- The priority queue is a sequence from which `poll` takes a first node in `compareTo` order.
- The algorithm is proved against the walks of the network as the router sees them (modules `Paths` and `ShortestPaths`). What it leaves is a tree of lightest walks: every finite distance is the weight of a lightest walk, and every infinite distance belongs to an unreachable host.
- `setupTables` is proved to enter, for every host that the start host reaches, the second host of a lightest walk to it.
- Replaying a message (`route`) hops along those entries.

**Where the code departs from the usual hash-table design, or from its own comments, the model follows the code.** That design normalises the bucket index, puts a floor under rehash sizes and bounds the load after every add; the comments state the last two at src/HashTable.java:67 and :98. The departures:
- The bucket index uses the raw Java `%`, which is not normalised first, so a negative hash code gives a negative index:
  - `Chains.NegativeHashGivesNegativeIndex` shows such an index;
  - the hash table's operations require non-negative hash codes.
- `rehash(n)` below `MIN_SLOTS` ends with capacity `n`, not with the floor: the first branch falls through to the second resize.
- After a growing `add`, the load is at most 3.0 only if it was before the `add` (`Table.HashTable.Add`).
- `removePair` keeps the pointer behaviour described above. It is not replaced by a defensive unlink.

## Model

| member | source | states |
|---|---|---|
| Pairs.GettersReturnConstructorArguments | src/KeyValuePair.java:20-37 | `getKey` and `getValue` of a new pair return exactly the key and the value it was built with |
| Pairs.Equals | src/KeyValuePair.java:43-48 | `equals` is false for anything that is not a pair, and for a pair it is true exactly when the keys are equal |
| Pairs.EqualsIgnoresValues | src/KeyValuePair.java:43-48 | two pairs with the same key are equal whatever their values |
| Pairs.EqualsIsEquivalence | src/KeyValuePair.java:43-48 | `equals` on pairs is reflexive, symmetric and transitive |
| Pairs.EqualPairsHashEqually | src/KeyValuePair.java:53-55 | equal pairs have equal hash codes, since `hashCode` is the key's hash |
| Chains.JavaRem | src/ArrayOfListsOfPairs.java:62-66 | the Java remainder lies in `[0, n)` for a non-negative dividend and in `(-n, 0]` for a negative one |
| Chains.IndexFor | src/ArrayOfListsOfPairs.java:62-66 | the index of a hash code is a valid bucket when the hash is non-negative; it is negative exactly when the hash is negative and not a multiple of the capacity |
| Chains.NegativeHashGivesNegativeIndex | src/ArrayOfListsOfPairs.java:62-77 | hash code -1 with two lists gives index -1, an illegal array index |
| Chains.FirstMatch | src/ArrayOfListsOfPairs.java:19-29 | the walk of `containsKey` stops at the first pair with the key, and runs off the end exactly when no pair has it |
| Chains.Lookup | src/ArrayOfListsOfPairs.java:127-144 | `getValue`'s walk gives null exactly when no pair has the key, and otherwise a value paired with the key in the chain |
| Chains.LookupDistinct | src/ArrayOfListsOfPairs.java:127-144 | in a chain with distinct keys the walk finds the value of the key's only pair |
| Chains.ReplaceFirst | src/ArrayOfListsOfPairs.java:104-121 | `replaceValue`'s walk keeps the length and every key and changes only the first pair with the key, which then holds the new value; the chain is unchanged when the key is absent |
| Chains.ReplaceFirstDistinct | src/ArrayOfListsOfPairs.java:104-121 | with distinct keys, the replaced chain has distinct keys and holds the same pairs, except that the key's pair has the new value |
| Chains.RemovePairChain | src/ArrayOfListsOfPairs.java:151-181 | `removePair` drops the head when the head has the key, and otherwise keeps the head |
| Chains.RemovePairKeepsOtherKeys | src/ArrayOfListsOfPairs.java:151-181 | `removePair` keeps every pair of another key, in order, and adds no pair |
| Chains.RemovePairShrinksCount | src/ArrayOfListsOfPairs.java:151-181 | `removePair` removes at least one pair with the key when there is one |
| Chains.RemovePairUnique | src/ArrayOfListsOfPairs.java:151-181 | with at most one pair with the key, `removePair` removes exactly that pair and keeps the others in order |
| Chains.RemovePairDuplicateRun | src/ArrayOfListsOfPairs.java:151-181 | in a chain whose last two pairs share the key, removing that key leaves the last pair in place |
| Chains.FirstWithValue | src/Network.java:215-263 | the scan of `getSource`/`getDest` stops at the first pair holding the connection, and runs off the end exactly when no pair holds it |
| Chains.LastValue | src/Network.java:296-302 | the scan of `findEdge` answers the value of the last pair with the key, or nothing when no pair has it |
| Chains.ValuesWithKeyMember | src/Network.java:130-148 | the connections `getInEdges` collects from one list are exactly those of the list's pairs with that key |
| Chains.WithoutValueValues | src/Network.java:374-393 | dropping the pairs that hold a connection removes that connection and keeps every other one |
| Chains.DropValueStep | src/Network.java:384-390 | one step of `removeEdge`'s walk: when the snapshot's pair holds the connection, removing its key from the live list drops exactly that pair |
| Chains.StripStep | src/Network.java:419-424 | one step of `removeVertex`'s walk keeps the live list non-empty where it removes, and on track to lose every pair with the host as key |
| Chains.StripDone | src/Network.java:417-425 | at the end of `removeVertex`'s walk, the list is the old list without its pairs keyed by the host |
| BucketSpec.EmptyBuckets | src/ArrayOfListsOfPairs.java:242-244 | a new store of `n` lists holds `n` empty chains |
| BucketSpec.FlattenMember | src/ArrayOfListsOfPairs.java:274-282 | `getAllPairs()` holds a pair exactly when some chain holds it |
| BucketSpec.FlattenPrepend | src/ArrayOfListsOfPairs.java:35-40 | prepending a pair to one chain adds exactly that pair to `getAllPairs()` |
| BucketSpec.InsertAllMultiset | src/ArrayOfListsOfPairs.java:85-98 | `resize` neither loses nor duplicates a pair |
| BucketSpec.InsertAllMember | src/ArrayOfListsOfPairs.java:85-98 | after `resize`, a pair is in list `j` exactly when its key hashes to `j` |
| BucketSpec.InsertAllPlaced | src/ArrayOfListsOfPairs.java:85-98 | after `resize`, every pair sits in the list its hash selects |
| BucketSpec.InsertAllDistinct | src/ArrayOfListsOfPairs.java:85-98 | resizing pairs with distinct keys gives chains with distinct keys |
| BucketSpec.FlattenDistinct | src/ArrayOfListsOfPairs.java:274-282 | in a store whose pairs sit in their lists and whose chains have distinct keys, `getAllPairs()` has distinct keys |
| ListsOfPairs.ArrayOfListsOfPairs.constructor | src/ArrayOfListsOfPairs.java:242-244 | a fresh array of `numLists` empty chains |
| ListsOfPairs.ArrayOfListsOfPairs.GetIndex | src/ArrayOfListsOfPairs.java:73-77 | the index is in range for a non-negative hash, and at most 0 for a negative one |
| ListsOfPairs.ArrayOfListsOfPairs.GetNumLists | src/ArrayOfListsOfPairs.java:250-252 | the number of lists is the array's length |
| ListsOfPairs.ArrayOfListsOfPairs.ContainsKey | src/ArrayOfListsOfPairs.java:19-29 | true exactly when the key's chain has a pair with the key |
| ListsOfPairs.ArrayOfListsOfPairs.AddPair | src/ArrayOfListsOfPairs.java:35-40 | the key's chain gets the new pair at its head; no other chain changes |
| ListsOfPairs.ArrayOfListsOfPairs.AddNewEdge | src/ArrayOfListsOfPairs.java:48-54 | chain `id` gets `(to, value)` at its head, whatever `to` hashes to; no other chain changes |
| ListsOfPairs.ArrayOfListsOfPairs.Resize | src/ArrayOfListsOfPairs.java:85-98 | a fresh store of `size` lists, holding the pairs of `getAllPairs()`, each added in order to the list its hash selects |
| ListsOfPairs.ArrayOfListsOfPairs.AddChain | src/ArrayOfListsOfPairs.java:90-95 | the inner loop of `resize` adds one chain's pairs, head first, after those already added |
| ListsOfPairs.ArrayOfListsOfPairs.ReplaceValue | src/ArrayOfListsOfPairs.java:104-121 | only the key's chain changes, and it changes by `replaceValue`'s walk |
| ListsOfPairs.ArrayOfListsOfPairs.GetValue | src/ArrayOfListsOfPairs.java:127-144 | the value of the first pair with the key in the key's chain, or null |
| ListsOfPairs.ArrayOfListsOfPairs.RemovePair | src/ArrayOfListsOfPairs.java:151-181 | only chain `index` changes, and it changes by `removePair`'s walk |
| ListsOfPairs.ArrayOfListsOfPairs.GetAllPairsAt | src/ArrayOfListsOfPairs.java:259-269 | the pairs of chain `listId`, head first |
| ListsOfPairs.ArrayOfListsOfPairs.GetAllPairs | src/ArrayOfListsOfPairs.java:274-282 | the chains one after the other, chain 0 first |
| Table.RepresentsLookup | src/HashTable.java:149-163 | on chains that represent the map, `containsKey` on the key's chain answers membership and `getValue` answers the mapped value |
| Table.RepresentsInsert | src/HashTable.java:72-91 | adding an absent key's pair to its chain represents the map with that entry added |
| Table.RepresentsReplace | src/HashTable.java:116-124 | replacing a present key's value in its chain represents the map with that entry changed |
| Table.RepresentsRemove | src/HashTable.java:131-143 | a present key's chain is not empty, and `removePair` on it represents the map without the key |
| Table.RepresentsResize | src/HashTable.java:97-109 | resizing the chains to any positive number of lists represents the same map |
| Table.HashTable.constructor | src/HashTable.java:31-41 | an empty table whose capacity is `numSlots`, raised to `MIN_SLOTS` = 2 when smaller |
| Table.HashTable.Size | src/HashTable.java:46-48 | the number of keys of the map |
| Table.HashTable.GetNumSlots | src/HashTable.java:53-55 | the number of lists, at least 1 |
| Table.HashTable.Contains | src/HashTable.java:149-151 | true exactly when the key is in the map |
| Table.HashTable.Find | src/HashTable.java:157-163 | the mapped value, or null exactly when the key is absent |
| Table.HashTable.Get | src/HashTable.java:157-163 | `get` returns what `Find` says |
| Table.HashTable.Add | src/HashTable.java:72-91 | succeeds exactly when key and value are non-null and the key is new. Success adds that one entry. Failure changes nothing. The capacity triples exactly when the count then exceeds three times it. A load of at most 3.0 before stays at most 3.0 after |
| Table.HashTable.AddAbsent | src/HashTable.java:83-85 | a new key's entry is added and the count goes up by one |
| Table.HashTable.Rehash | src/HashTable.java:97-109 | the map and the count are kept, and the capacity becomes `newSize` even below `MIN_SLOTS` |
| Table.HashTable.ResizeStorage | src/HashTable.java:104-107 | moving the entries into `n` fresh lists keeps the map and the count and sets the capacity to `n` |
| Table.HashTable.Replace | src/HashTable.java:116-124 | succeeds exactly when the key is present. Success changes that entry. Failure changes no chain. The count and the capacity are kept |
| Table.HashTable.Remove | src/HashTable.java:131-143 | succeeds exactly when the key is present. The key is then absent and the other entries stay. The count goes down by one on success. Failure changes no chain |
| Graph.RemoveFirst | src/Network.java:427 | removing the first copy of an element drops one copy of it and nothing else; an absent element changes nothing |
| Graph.RemoveFirstDistinct | src/Network.java:427 | in a host list without repeats, `hosts.remove(v)` leaves a list without repeats that no longer holds `v` |
| Graph.OutEdges | src/Network.java:110-121 | the connection of every pair of the host's list, head first |
| Graph.Successors | src/Network.java:191-203 | the key of every pair of the host's list, in the order of `getOutEdges`, so both have the same length |
| Graph.SourceOf | src/Network.java:215-233 | a source `getSource` names is a host whose list holds the connection |
| Graph.DestOf | src/Network.java:246-263 | `getDest` finds a host exactly when `getSource` does, and the connection is stored in the source's list under that key |
| Graph.SourceNone | src/Network.java:215-233 | `getSource` is null exactly when no host's list holds the connection |
| Graph.SourceOfUnique | src/Network.java:215-263 | when ids and connections are not shared, `getSource` and `getDest` of a listed connection are the host whose list holds it and its key |
| Graph.FindEdgeSpec | src/Network.java:289-308 | a connection `findEdge` returns joins two hosts of the network, and `getSource`/`getDest` name exactly `v1` and `v2` for it |
| Graph.FindEdgeSound | src/Network.java:296-302 | a connection `findEdge` returns is stored in `v1`'s list under key `v2` |
| Graph.FindEdgeComplete | src/Network.java:289-308 | when ids and connections are not shared, `findEdge(v1, v2)` finds a connection exactly when `v1`'s list has a pair keyed `v2` |
| Graph.EdgesMember | src/Network.java:44-54 | `getEdges` holds a connection exactly when some host's list holds it |
| Graph.EdgesHaveSource | src/Network.java:44-54 | a connection is in `getEdges` exactly when `getSource` finds its source, and then `getDest` finds its destination |
| Graph.PredsMember | src/Network.java:160-179 | a host is a predecessor of `v` exactly when it is in the network and its list has a pair keyed `v` |
| Graph.PredsDistinct | src/Network.java:160-179 | `getPredecessors` lists each host at most once |
| Graph.InEdgesMember | src/Network.java:130-148 | `getInEdges(v)` holds a connection exactly when some host's list stores it under key `v` |
| Graph.AddEdgeKeepsSimple | src/Network.java:338-340 | adding a connection that is not yet in the network keeps ids and connections unshared |
| Graph.AddEdgeKeepsOnePerPair | src/Network.java:334-340 | adding after a failed `findEdge` keeps at most one connection per ordered pair of hosts |
| Graph.AddEdgeThenFind | src/Network.java:328-342 | after a successful `addEdge(e, v1, v2)`, `findEdge(v1, v2)` returns `e` |
| Graph.OppositeEnds | src/Network.java:666-674 | `getOpposite` from the source of a listed connection is its key, and from a distinct key it is the source |
| Graph.IncidentVerticesEnds | src/Network.java:742-754 | `getIncidentVertices` of a listed connection is its source followed by its destination, the destination only when it is another host |
| Graph.NeighborsMember | src/Network.java:550-560 | another host is a neighbour of `v` exactly when a connection joins them in either direction |
| Graph.IncidentEdgesMember | src/Network.java:569-579 | a connection other than `v`'s self-loop is incident to `v` exactly when it leaves `v` or enters `v` |
| Graph.RemoveEdgeEdges | src/Network.java:374-393 | once every host's list drops a connection, it is no longer an edge and every other edge remains |
| Graph.RemoveVertexNoInEdges | src/Network.java:411-429 | once every host's list drops the pairs keyed `v`, `v` has no predecessor and no incoming connection |
| Networks.FindValue | src/Network.java:223-229 | the inner scan of `getSource`/`getDest` stops at the first pair holding the connection |
| Networks.Network.constructor | src/Network.java:33-36 | no hosts and 255 empty adjacency lists |
| Networks.Network.GetEdges | src/Network.java:44-54 | the connections of every host's list, hosts in order |
| Networks.Network.GetOutEdges | src/Network.java:110-121 | the connections of `v`'s list, head first |
| Networks.Network.GetInEdges | src/Network.java:130-148 | the connections stored under key `v`, hosts in order; empty for a null host, which no key equals |
| Networks.Network.GetPredecessors | src/Network.java:160-179 | the hosts whose list has a pair keyed `v`, in host order; empty for a null host |
| Networks.Network.GetSuccessors | src/Network.java:191-203 | the keys of `v`'s list, head first |
| Networks.Network.GetSource | src/Network.java:215-233 | the first host, in host order, whose list holds the connection, or null; null for a null connection |
| Networks.Network.GetDest | src/Network.java:246-263 | the key under which that host's list first stores the connection, or null; null for a null connection |
| Networks.Network.FindEdge | src/Network.java:289-308 | the last pair of `v1`'s list keyed `v2`, kept only when `getSource` and `getDest` confirm it; null when either host is null or absent |
| Networks.Network.AddEdge | src/Network.java:328-342 | throws exactly when an endpoint is null or not a host. It refuses, changing nothing, exactly when `findEdge` already joins the pair. Otherwise `(v2, e)` heads `v1`'s list and no other list changes. If ids and connections were unshared, with at most one connection per pair, and `e` was new, they stay so and `findEdge(v1, v2)` then gives `e` |
| Networks.Network.AddVertex | src/Network.java:352-365 | throws exactly on null, refuses a present host unchanged, and otherwise appends it to the host list |
| Networks.Network.RemoveEdge | src/Network.java:374-393 | succeeds exactly when the connection is non-null and an edge. It then drops that connection from every host's list, and it is no longer an edge while every other edge remains. Lists of ids no host has are kept |
| Networks.Network.RemoveVertex | src/Network.java:411-429 | succeeds exactly when the host is present. It then leaves the host list, and every host's list loses its pairs keyed by it, so it has no predecessor and no incoming connection. Its own list keeps its pairs to other hosts |
| Networks.Network.DropConnectionEverywhere | src/Network.java:380-391 | the outer loop of `removeEdge` rewrites every host's list without the connection and no other list |
| Networks.Network.DropKeyEverywhere | src/Network.java:417-425 | the outer loop of `removeVertex` rewrites every host's list without the host's pairs and no other list |
| Networks.Network.DropConnection | src/Network.java:382-390 | the inner loop of `removeEdge` on a list with distinct keys drops exactly the pairs holding the connection |
| Networks.Network.DropKey | src/Network.java:418-424 | the inner loop of `removeVertex` drops exactly the pairs keyed by the host |
| Networks.Network.GetOpposite | src/Network.java:666-674 | the end of the connection other than `v`; its source when `v` is null |
| Networks.Network.GetNeighbors | src/Network.java:550-560 | successors, then predecessors, one copy of `v` dropped for a self-loop; null for a null or absent host |
| Networks.Network.GetIncidentEdges | src/Network.java:569-579 | outgoing, then incoming connections, the self-loop once; null for a null or absent host |
| Networks.Network.GetIncidentVertices | src/Network.java:742-754 | source, then destination unless it is the source; null for a null connection or one not in the network |
| Paths.Wrap32 | src/ThreeTenNetwork.java:138-142 | a Java `int` result: in range, congruent to the exact value modulo 2^32, and equal to it when it fits |
| Paths.CompareTo | src/ThreeTenNetwork.java:138-142 | for distances between 0 and `Integer.MAX_VALUE`, negative exactly when the node is nearer or equally near with a smaller id, and zero exactly when both distance and id agree |
| Routing.CompareToTransitive | src/ThreeTenNetwork.java:138-142 | `compareTo` is transitive on nodes with distances in range |
| Routing.CompareToTotal | src/ThreeTenNetwork.java:138-142 | `compareTo` is total on nodes with distances in range |
| Paths.ArcIsPair | src/ThreeTenNetwork.java:265-268 | when ids and connections are not shared, following a connection of a host's list leads to that pair's key |
| Paths.ArcExists | src/ThreeTenNetwork.java:265-268 | every connection of a host's list has a source, and its other end is a host that has a node |
| Paths.ArcWeight | src/ThreeTenNetwork.java:270 | a connection's weight is between 0 and the bound that keeps path costs below `Integer.MAX_VALUE` |
| Paths.RestIsLightest | src/ThreeTenNetwork.java:342-354 | a lightest walk without its first connection is a lightest walk from its second host |
| Routing.NodeIndexStep | src/ThreeTenNetwork.java:26-36 | entering a host in the host-to-node table adds a new key, mapped to its place in the host list |
| Routing.Unvisited | src/ThreeTenNetwork.java:28-32 | a new node wraps its host, is not done, has no parent, and is at distance 0 for the start host and `Integer.MAX_VALUE` otherwise |
| Routing.SetupHost | src/ThreeTenNetwork.java:26-36 | one turn of `setupDijkstras` adds the host's node, queues it and enters it in the table |
| Routing.SetupDijkstras | src/ThreeTenNetwork.java:22-37 | every host gets exactly one node, in the queue and in the table. The start node is at distance 0 and the others at `Integer.MAX_VALUE`. No node is done or has a parent |
| Routing.Poll | src/ThreeTenNetwork.java:257 | `poll` on an empty queue gives null. Otherwise it gives a node of the queue that comes first in `compareTo` order, and leaves the others |
| Routing.RelaxPreserves | src/ThreeTenNetwork.java:272-281 | relaxing one connection keeps the state of the inner loop and adds that connection to those relaxed |
| Routing.RelaxEdge | src/ThreeTenNetwork.java:266-281 | the body of the inner loop: the node across the connection is updated only when it is not done and the cost through the polled node is lower. It then gets that cost and that parent and goes to the back of the queue |
| Routing.OtherEnd | src/ThreeTenNetwork.java:267-268 | `getOpposite` then `get` gives the node the connection leads to |
| Routing.RelaxEdges | src/ThreeTenNetwork.java:263-282 | the inner loop relaxes every connection of the polled node, in list order, and keeps the loop's state |
| Routing.Settle | src/ThreeTenNetwork.java:263-288 | one turn of the main loop restores its invariant, with the polled node done in the next place of the finishing order |
| Routing.Search | src/ThreeTenNetwork.java:261-289 | the main loop ends with a tree of lightest walks from the start host |
| Routing.SearchReady | src/ThreeTenNetwork.java:252-257 | after `setupDijkstras` and the first `poll`, the invariant of the main loop holds |
| Routing.SearchFrom | src/ThreeTenNetwork.java:246-289 | `runDijkstra` up to `setupTables` leaves a tree of lightest walks from `startNode` whose parent links point to nodes finished earlier |
| ShortestPaths.FrontierStart | src/ThreeTenNetwork.java:252-261 | the fresh nodes and the first polled node satisfy the loop invariant |
| ShortestPaths.MinimalIsLowest | src/ThreeTenNetwork.java:257-288 | the node `poll` gives has the least distance of the nodes not done |
| ShortestPaths.SettleNext | src/ThreeTenNetwork.java:261-289 | that node's distance cannot be beaten by any walk from the start |
| ShortestPaths.RelaxUpdate | src/ThreeTenNetwork.java:274-281 | an improving relaxation keeps the invariant of the inner loop |
| ShortestPaths.FinishTurn | src/ThreeTenNetwork.java:284-288 | marking the polled node done and polling again restores the invariant of the main loop |
| ShortestPaths.Stop | src/ThreeTenNetwork.java:261 | when the queue is empty or the polled node is at `Integer.MAX_VALUE`, the invariant gives a tree of lightest walks |
| ShortestPaths.Unreached | src/ThreeTenNetwork.java:261 | when the loop stops, no walk leads to a node that is not done |
| ShortestPaths.Distances | src/ThreeTenNetwork.java:243-296 | after the search, a finite distance is the weight of a lightest walk, and a distance is `Integer.MAX_VALUE` exactly when the host is unreachable |
| ShortestPaths.TreeRanked | src/ThreeTenNetwork.java:65-82 | parent links point to nodes finished earlier, so `setupTables`' walk up the links ends |
| ShortestPaths.TreeWalk | src/ThreeTenNetwork.java:59-82 | the parent links from a finished node back to the start spell a walk that weighs the node's distance, and whose second node is the one `setupTables` picks |
| ShortestPaths.NextHopDefined | src/ThreeTenNetwork.java:59-82 | `setupTables` finds a next hop for a node exactly when it is not the start and was reached |
| ShortestPaths.NextHopIsFirstHop | src/ThreeTenNetwork.java:44-84 | the next hop exists exactly when the host is another host the start reaches, and it is the second host of a lightest walk to it |
| Routing.Learn | src/ThreeTenNetwork.java:59-81 | `add(host, hop)` on a routing table enters a new destination and never overwrites one it already holds |
| Routing.Enter | src/ThreeTenNetwork.java:60 | one `add` on the start host's routing table, as `Learn` says |
| Routing.AddRoute | src/ThreeTenNetwork.java:52-82 | the loop body of `setupTables` enters the host's next hop when its parent chain reaches the start, and nothing otherwise |
| Routing.Hops | src/ThreeTenNetwork.java:50-83 | the next hop towards every node, in host order |
| Routing.NodesOf | src/ThreeTenNetwork.java:48-52 | `get` on the host-to-node table gives every host's own node |
| Routing.RouteAll | src/ThreeTenNetwork.java:50-83 | the loop of `setupTables` enters, host by host, each next hop into the routing table |
| Routing.RouteFrom | src/ThreeTenNetwork.java:50-83 | the remaining iterations of that loop, from host `i` on, take the table from the routes of the first `i` hosts to those of all of them |
| Routing.SetupTables | src/ThreeTenNetwork.java:44-84 | the start host's routing table ends holding the entries made host by host from the tree |
| Routing.EnteredKeeps | src/ThreeTenNetwork.java:50-83 | an entry the routing table held before `setupTables` is kept |
| Routing.EnteredOnlyHosts | src/ThreeTenNetwork.java:50-83 | a new entry is only ever made for a host of the network |
| Routing.EnteredOther | src/ThreeTenNetwork.java:50-83 | destinations other than the hosts walked are as before |
| Routing.EnteredHost | src/ThreeTenNetwork.java:50-83 | a host that had no entry gets one exactly when it has a next hop, with that hop |
| Routing.RoutesLearned | src/ThreeTenNetwork.java:44-84 | from a tree of lightest walks, `setupTables` keeps old entries. A host without an entry gets one exactly when it is another host the start reaches, and the entry is the second host of a lightest walk to it. No other destination is added |
| Routing.TurnDone | src/ThreeTenNetwork.java:231-234 | one more turn of `start`'s loop extends what the loop has done by that host's routes |
| Routing.RouteStep | src/ThreeTenNetwork.java:342-354 | with no entry for `dest` the message stays and `route` answers false. An entry whose hop has no connection is a NullPointerException. Otherwise the message moves to the hop and `route` answers whether the hop is not `dest` |
| Routing.FirstHopJoined | src/ThreeTenNetwork.java:347 | the first hop of a lightest walk is a host that `findEdge` finds joined to the current one |
| Routing.RouteFromRouted | src/ThreeTenNetwork.java:342-354 | at a host whose table holds the routes `runDijkstra` computed, `route` throws nothing and leaves the message at a host. If it answers false, the message is at `dest` exactly when `dest` is that host or reachable from it. If it answers true, the message has moved to the first hop of a lightest walk to `dest` |
| Routing.ThreeTenNetwork.constructor | src/ThreeTenNetwork.java:148-159 | no network, routes not computed, no message |
| Routing.ThreeTenNetwork.Reset | src/ThreeTenNetwork.java:206-210 | the new network, routes not computed, no message |
| Routing.ThreeTenNetwork.Clean | src/ThreeTenNetwork.java:215-224 | routes marked not computed and no message, the network kept |
| Routing.ThreeTenNetwork.RunDijkstra | src/ThreeTenNetwork.java:243-296 | the start host's routing table keeps its old entries and gains, for every other host it reaches and had no entry for, the first hop of a lightest walk, and nothing else |
| Routing.ThreeTenNetwork.RunAt | src/ThreeTenNetwork.java:231-234 | one turn of `start`'s loop fills the host's routing table that way and leaves every other routing table as it was |
| Routing.ThreeTenNetwork.Start | src/ThreeTenNetwork.java:229-236 | every host's routing table ends holding its routes as `runDijkstra` computes them. The routes are then marked computed, with no message |
| Routing.ThreeTenNetwork.StepFrom | src/ThreeTenNetwork.java:305-321 | the message is put at `source`. A null `source` is a NullPointerException. Otherwise the answer is false exactly when `source` is `dest` and `findEdge` finds no connection from it to itself |
| Routing.ThreeTenNetwork.Route | src/ThreeTenNetwork.java:342-354 | with no current host, or a null `dest`, it is a NullPointerException and the message stays put; otherwise it does what `RouteStep` says |
| Routing.ThreeTenNetwork.Finish | src/ThreeTenNetwork.java:360-367 | with no current host it is a NullPointerException; otherwise it answers whether the message is at `dest`, which is false for a null `dest` |
| Routing.ThreeTenNetwork.Step | src/ThreeTenNetwork.java:329-335 | answers what `route` answers, a NullPointerException included, and when that is false, `finish` reports whether the message reached `dest` |

## Left out

- The colours are not modelled. This covers the colour constants and every `setColor` call in `clean`, `runDijkstra`, `step`, `route` and `finish`; they affect display only.
- The other `Graph` queries of the network are not part of this model: counts, degrees, `isPredecessor`, `findEdgeSet` and the like. Neither are the `EdgeType` and `Collection` overloads of `addEdge`, `getFactory` or `getInternalTable`. They are plumbing for the graph library.
- `main` and every `toString` are left out.
- `getLoad()` is left out, because it uses floating point. The growth test is the exact integer comparison `Table.Overloaded`, which is equivalent for 32-bit counts.
- The internals of `java.util.PriorityQueue` are not modelled. The queue is a sequence: `poll` takes the node that comes first in `compareTo` order (the earliest in queue order on a tie), and `remove`/`add` move a node to the back.
- The classes `Host` and `Connection` are not part of this model. A host has:
  - a constant id below 255;
  - a constant hash code, which `Hosts.HostHash` returns;
  - its own routing table.
  
  A connection has a constant weight and is compared by reference. `Host.equals` is taken to be reference equality.
- Integer counters (`numEntries`, `capacity`, `3 * capacity`) are unbounded, so their 32-bit overflow is not modelled. The path costs and `compareTo` stay within `int` under the router's preconditions: `compareTo`'s subtraction is wrapped explicitly (`Paths.Wrap32`).
- Table.HashTable.Add, Contains, Find, Get, Replace and Remove require a non-negative hash code for the key. With a negative one the Java index can be negative and the array access throws (`Chains.NegativeHashGivesNegativeIndex`); that exception is not modelled.
- Table.HashTable.Contains, Find, Get, Replace and Remove take a non-null key. With a null key Java throws a NullPointerException at `key.hashCode()` in `getIndex`; that exception is not modelled. `add` refuses a null key or value before it reaches `contains`, and `Table.HashTable.Add` models that refusal.
- ListsOfPairs.ArrayOfListsOfPairs.ContainsKey, AddPair, ReplaceValue and GetValue require `Indexable(key)`. This holds exactly when the Java array access is legal. The exception for an illegal index is not modelled.
- ListsOfPairs.ArrayOfListsOfPairs.constructor takes a natural number. A negative `numLists` would throw `NegativeArraySizeException`.
- ListsOfPairs.ArrayOfListsOfPairs.Resize requires `size > 0` and non-negative hash codes. A size of 0 makes `%` divide by zero.
- ListsOfPairs.ArrayOfListsOfPairs.RemovePair requires a non-empty chain `index`. The Java code dereferences its head, so an empty chain throws a NullPointerException.
- Table.HashTable.Rehash requires `newSize >= 1`. With 0 the table breaks at its next hashing, and a negative size throws.
- Table.HashTable.Replace takes a non-null value. With null, Java would store null, and `get` would then answer null for a present key.
- Networks.Network.AddEdge takes a non-null connection. Java accepts null: when `findEdge` answers null, it stores the pair `(v2, null)`. Every later scan that reaches that pair throws a NullPointerException at `getValue().equals(...)`: `getSource`, `getDest`, `findEdge` and `removeEdge`. The model has no null-valued pairs, so it does not capture this state or those exceptions.
- Networks.Network.RemoveEdge requires at most one connection per ordered pair of hosts, which `addEdge` maintains as long as no connection object is added twice (the last ensures of `Networks.Network.AddEdge`). The Java walk removes by key, so with two connections to one host it may drop the wrong one.
- Networks.Network.GetOpposite requires the connection to be in the network. Its source is dereferenced.
- Routing.ThreeTenNetwork.RunDijkstra and Start have these preconditions:
  - every key in a host's list is a host of the network. Otherwise `hostToDijkstraNode.get` gives null, and dereferencing it throws;
  - weights are at least 0 and at most `(Integer.MAX_VALUE - 1)` divided by the number of hosts, so no cost wraps around;
  - hash codes are non-negative;
  - the routing tables are separate objects.
  
  A negative weight or a wrapped cost is not modelled.
- Routing.ThreeTenNetwork.Clean, Start, StepFrom, Route and Step require a network (`graph` non-null). Java throws a NullPointerException without one.
- Routing.ThreeTenNetwork.Reset takes a non-null network. `reset(null)` stores null and then throws a NullPointerException in `clean()` at `graph.getVertices()`; that exception is not modelled.
- Routing.ThreeTenNetwork.Route requires a non-negative hash code for a non-null `dest`, as the routing table's `get` does (see the Table.HashTable line above). The exception a negative one can cause is not modelled.
- Routing.ThreeTenNetwork.Step requires the same of `dest`, because it calls `route`.
- Networks.Network.GetOutEdges takes a non-null host. With null, Java throws a NullPointerException at `vertex.getId()`; that exception is not modelled.
- Networks.Network.GetSuccessors takes a non-null host, for the same reason as `getOutEdges`.
- Routing.ThreeTenNetwork.SetupDijkstras creates and returns the host-to-node table instead of filling one that `runDijkstra` passed in. The table it returns is fresh.
- Routing.RouteFrom writes the `for` loop of `setupTables` as a method that recurses on the host index; the iterations and their order are the same. Its state is the routing table object alone, so the recursion is equivalent to the loop.
- Routing.RouteFromRouted proves one hop of a replayed message. It does not prove that repeated steps deliver the message over several hosts' tables.
- `clean()` and `start()` do not clear the routing tables, and `add` never overwrites an entry. Routes from an earlier `start()` therefore persist, which the model keeps: `Routing.ThreeTenNetwork.Start` states the result relative to the old table contents.
