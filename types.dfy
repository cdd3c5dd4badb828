/**
  Values the simulation harness reads from the gossip participants.
  The participants themselves (GossiperSimulator) are external: the harness
  only ever looks at a participant's broadcast address, its seed list and its
  endpoint-state map, so a participant is a record of those three.
 */
module GossipTypes {

  type Octet = x: int | 0 <= x < 256

  /** An IPv4 address, as the four octets `o1.o2.o3.o4`. */
  datatype InetAddr = InetAddr(o1: Octet, o2: Octet, o3: Octet, o4: Octet)

  /** The application-state kinds the harness sets at start-up; every other
      kind of Cassandra's enum is folded into `OtherState`. */
  datatype StateKey = NetVersion | HostId | RpcAddress | ReleaseVersion | OtherState(name: string)

  /** A versioned value, kept by its version only: two values compare equal
      exactly when their versions are equal. */
  datatype VersionedValue = VersionedValue(version: int)

  type AppStates = map<StateKey, VersionedValue>

  /** Generation (fixed per start) and heartbeat version (bumped every round). */
  datatype HeartBeat = HeartBeat(generation: int, version: int)

  /** One participant's belief about one address. */
  datatype EndpointState = EndpointState(heartBeat: HeartBeat, appStates: AppStates)

  /** A participant as the harness sees it. */
  datatype Gossiper = Gossiper(
    broadcastAddr: InetAddr,
    seeds: seq<InetAddr>,
    endpointStateMap: map<InetAddr, EndpointState>)

  /** The registry: participants by address. */
  type Registry = map<InetAddr, Gossiper>

  /** Every entry is filed under its own participant's address, which is what
      registering by `broadcastAddr` maintains. */
  ghost predicate KeysMatchAddrs(gossipers: Registry)
  {
    forall a :: a in gossipers ==> gossipers[a].broadcastAddr == a
  }
}
