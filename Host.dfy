/** The vertex and edge types of the network. Their classes are not part of
    this model; only what the network and the router use of them is kept: a
    host has an id below the network size, a hash code and its own routing
    table, and a connection has a weight. Both are compared by reference. */
module Hosts {
  import opened Table

  /** `MAX_NETWORK_SIZE`: the number of adjacency lists. */
  const MaxNetworkSize := 255

  type HostId = x: nat | x < 255

  class Host {
    const id: HostId
    const hashCode: int
    /** Next hop towards each destination, filled in by the router. */
    const routingTable: HashTable<Host, Host>

    constructor (id: HostId, hashCode: int, tableSlots: int)
      ensures this.id == id && this.hashCode == hashCode
      ensures fresh(routingTable) && fresh(routingTable.Repr)
      ensures routingTable.Valid() && routingTable.Contents == map[]
      ensures routingTable.hash == HostHash
    {
      this.id := id;
      this.hashCode := hashCode;
      routingTable := new HashTable(tableSlots, HostHash);
    }
  }

  /** `Host.hashCode()`. */
  function HostHash(h: Host): int
  {
    h.hashCode
  }

  class Connection {
    const weight: int

    constructor (weight: int)
      ensures this.weight == weight
    {
      this.weight := weight;
    }
  }
}
