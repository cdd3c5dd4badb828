/**
  The simulation driver of org.apache.cassandra.gms.Simulator, without its
  threads: address allocation, the set-up of one run (reset the router, build
  the seed list, register every participant), the count-down latch the
  driver waits on, and the round-completion action the barrier runs once per
  round.
 */
module Simulator {
  import opened GossipTypes
  import opened GmsMessaging
  import opened Convergence

  // ---------------------------------------------------------------------
  // Address allocation
  // ---------------------------------------------------------------------

  /** Node indices whose address has a third octet below 256. */
  const MaxNodes: nat := 255 * 256

  /** The node index an allocated address was made for. */
  function AddrIndex(addr: InetAddr): int
  {
    addr.o3 * 255 + addr.o4
  }

  /** `getInetAddr(i)`: the loopback-range address 127.0.(i / 255).(i % 255).
      The fourth octet never reaches 255, and the index can be read back. */
  function GetInetAddr(i: nat): (addr: InetAddr)
    requires i < MaxNodes
    ensures addr.o1 == 127 && addr.o2 == 0
    ensures addr.o4 <= 254
    ensures AddrIndex(addr) == i
  {
    InetAddr(127, 0, i / 255, i % 255)
  }

  /** Distinct node indices get distinct addresses. */
  lemma GetInetAddrInjective(i: nat, j: nat)
    requires i < MaxNodes && j < MaxNodes
    ensures GetInetAddr(i) == GetInetAddr(j) <==> i == j
  {
    if GetInetAddr(i) == GetInetAddr(j) {
      assert AddrIndex(GetInetAddr(i)) == AddrIndex(GetInetAddr(j));
    }
  }

  /** Every address of the shape `getInetAddr` produces is produced by it,
      for the index `AddrIndex` reads back. */
  lemma AddrIndexRoundTrip(addr: InetAddr)
    requires addr.o1 == 127 && addr.o2 == 0 && addr.o4 <= 254
    ensures 0 <= AddrIndex(addr) < MaxNodes
    ensures GetInetAddr(AddrIndex(addr)) == addr
  {
    var i := AddrIndex(addr);
    assert 0 <= i < MaxNodes;
    DivModUnique(i, addr.o3, addr.o4);
  }

  lemma DivModUnique(i: int, q: int, r: int)
    requires 0 <= r < 255 && i == q * 255 + r
    ensures i / 255 == q && i % 255 == r
  {
  }

  /** `addr` is the address of one of the node indices `0 .. n-1`. */
  predicate IsNodeAddr(addr: InetAddr, n: nat)
  {
    addr.o1 == 127 && addr.o2 == 0 && addr.o4 <= 254 && AddrIndex(addr) < n
  }

  /** The addresses of node indices `0 .. n-1`. */
  function NodeAddrs(n: nat): (addrs: set<InetAddr>)
    requires n <= MaxNodes
    ensures forall a :: a in addrs <==> IsNodeAddr(a, n)
  {
    var addrs := set i | 0 <= i < n :: GetInetAddr(i);
    assert forall a :: IsNodeAddr(a, n) ==> a in addrs by {
      forall a | IsNodeAddr(a, n) ensures a in addrs {
        AddrIndexRoundTrip(a);
      }
    }
    addrs
  }

  /** One more node index adds exactly its own address. */
  lemma NodeAddrsGrow(n: nat)
    requires 0 < n <= MaxNodes
    ensures NodeAddrs(n) == NodeAddrs(n - 1) + {GetInetAddr(n - 1)}
    ensures GetInetAddr(n - 1) !in NodeAddrs(n - 1)
  {
    forall a | a in NodeAddrs(n)
      ensures a in NodeAddrs(n - 1) + {GetInetAddr(n - 1)}
    {
      if AddrIndex(a) == n - 1 {
        AddrIndexRoundTrip(a);
      }
    }
  }

  /** `n` nodes get `n` different addresses. */
  lemma {:induction false} NodeAddrsCount(n: nat)
    requires n <= MaxNodes
    ensures |NodeAddrs(n)| == n
  {
    if n > 0 {
      NodeAddrsCount(n - 1);
      NodeAddrsGrow(n);
    }
  }

  // ---------------------------------------------------------------------
  // Setting up one run
  // ---------------------------------------------------------------------

  /** The precondition `runSimulation(seedCnt, nodeCnt)` evidently intends:
      fewer seeds than nodes, and no more nodes than there are addresses. */
  predicate SetupPrecondition(seedCnt: nat, nodeCnt: nat)
  {
    seedCnt < nodeCnt <= MaxNodes
  }

  /** The assertion at the head of `runSimulation(seedCnt, nodeCnt)`, as
      written. */
  predicate AssertedAsWritten(seedCnt: int, nodeCnt: int)
  {
    seedCnt > nodeCnt
  }

  /** The only run the program makes, with 20 seeds and 1200 nodes, fails the
      assertion as written and meets the intended precondition. */
  lemma AsWrittenAssertionRejectsTheOnlyCall()
    ensures !AssertedAsWritten(20, 1200)
    ensures SetupPrecondition(20, 1200)
  {
  }

  /** Every run the assertion as written admits has a seed that is not a
      registered node: the seed made for index `nodeCnt`. */
  lemma AsWrittenAssertionAdmitsUnregisteredSeed(seedCnt: nat, nodeCnt: nat)
    requires AssertedAsWritten(seedCnt, nodeCnt) && seedCnt <= MaxNodes
    ensures nodeCnt < seedCnt
    ensures GetInetAddr(nodeCnt) !in NodeAddrs(nodeCnt)
  {
  }

  /** Under the intended precondition every seed is a registered node. */
  lemma SeedsAreRegistered(seedCnt: nat, nodeCnt: nat)
    requires SetupPrecondition(seedCnt, nodeCnt)
    ensures forall i :: 0 <= i < seedCnt ==> GetInetAddr(i) in NodeAddrs(nodeCnt)
  {
  }

  /** The seed list: the addresses of the first `seedCnt` node indices. */
  method SeedList(seedCnt: nat) returns (seeds: seq<InetAddr>)
    requires seedCnt <= MaxNodes
    ensures |seeds| == seedCnt
    ensures forall i :: 0 <= i < seedCnt ==> seeds[i] == GetInetAddr(i)
  {
    seeds := [];
    var i := 0;
    while i < seedCnt
      invariant 0 <= i <= seedCnt
      invariant |seeds| == i
      invariant forall j :: 0 <= j < i ==> seeds[j] == GetInetAddr(j)
    {
      seeds := seeds + [GetInetAddr(i)];
      i := i + 1;
    }
  }

  /** The four application states a participant is started with; their
      values come from `valueOf` (the value factory and the random host id). */
  function InitialAppStates(addr: InetAddr, valueOf: (InetAddr, StateKey) -> VersionedValue): (states: AppStates)
    ensures forall k :: k in states <==> !k.OtherState?
    ensures forall k :: k in states ==> states[k] == valueOf(addr, k)
  {
    map[NetVersion := valueOf(addr, NetVersion),
        HostId := valueOf(addr, HostId),
        RpcAddress := valueOf(addr, RpcAddress),
        ReleaseVersion := valueOf(addr, ReleaseVersion)]
  }

  /** A participant for `addr` after `start(0, appStates)`: it knows only
      itself, at generation 0 with the given application states. */
  function Started(addr: InetAddr, seeds: seq<InetAddr>, appStates: AppStates): (g: Gossiper)
  {
    Gossiper(addr, seeds, map[addr := EndpointState(HeartBeat(0, 0), appStates)])
  }

  /** The registry after the participants of node indices `0 .. n-1` have
      been registered, in that order, into an empty one. */
  function SetupRegistry(n: nat, seeds: seq<InetAddr>,
                         valueOf: (InetAddr, StateKey) -> VersionedValue): Registry
    requires n <= MaxNodes
  {
    if n == 0 then map[]
    else
      var addr := GetInetAddr(n - 1);
      SetupRegistry(n - 1, seeds, valueOf)[addr := Started(addr, seeds, InitialAppStates(addr, valueOf))]
  }

  /** That registry holds exactly the addresses of node indices `0 .. n-1`. */
  lemma {:induction false} SetupRegistryKeys(n: nat, seeds: seq<InetAddr>,
                                             valueOf: (InetAddr, StateKey) -> VersionedValue)
    requires n <= MaxNodes
    ensures forall a :: a in SetupRegistry(n, seeds, valueOf) <==> IsNodeAddr(a, n)
  {
    if n > 0 {
      SetupRegistryKeys(n - 1, seeds, valueOf);
      NodeAddrsGrow(n);
    }
  }

  /** Every address in that registry is mapped to the participant started
      for it. */
  lemma {:induction false} SetupRegistryValues(n: nat, seeds: seq<InetAddr>,
                                               valueOf: (InetAddr, StateKey) -> VersionedValue)
    requires n <= MaxNodes
    ensures forall a :: a in SetupRegistry(n, seeds, valueOf) ==>
      SetupRegistry(n, seeds, valueOf)[a] == Started(a, seeds, InitialAppStates(a, valueOf))
  {
    if n > 0 {
      SetupRegistryValues(n - 1, seeds, valueOf);
      var previous := SetupRegistry(n - 1, seeds, valueOf);
      forall a | a in SetupRegistry(n, seeds, valueOf)
        ensures SetupRegistry(n, seeds, valueOf)[a] == Started(a, seeds, InitialAppStates(a, valueOf))
      {
        if a != GetInetAddr(n - 1) {
          assert SetupRegistry(n, seeds, valueOf)[a] == previous[a];
        }
      }
    }
  }

  /** One more registration adds the participant of the next node index. */
  lemma SetupRegistryStep(n: nat, seeds: seq<InetAddr>,
                          valueOf: (InetAddr, StateKey) -> VersionedValue)
    requires n < MaxNodes
    ensures SetupRegistry(n + 1, seeds, valueOf)
      == SetupRegistry(n, seeds, valueOf)[GetInetAddr(n) := Started(GetInetAddr(n), seeds, InitialAppStates(GetInetAddr(n), valueOf))]
  {
  }

  /** A started participant answers to `addr`, holds an entry for itself at
      generation 0 with the given application states, and none for anybody
      else. */
  lemma StartedKnowsOnlyItself(addr: InetAddr, seeds: seq<InetAddr>, appStates: AppStates, other: InetAddr)
    ensures var g := Started(addr, seeds, appStates);
      && g.broadcastAddr == addr && g.seeds == seeds
      && addr in g.endpointStateMap
      && g.endpointStateMap[addr].heartBeat.generation == 0
      && g.endpointStateMap[addr].appStates == appStates
      && (other in g.endpointStateMap <==> other == addr)
  {
  }

  /** The registration loop of `runSimulation`: for each node index in turn,
      the participant started for its address is registered with the
      current router. */
  method RegisterNodes(runtime: MessagingRuntime, seeds: seq<InetAddr>, nodeCnt: nat,
                       valueOf: (InetAddr, StateKey) -> VersionedValue)
    requires nodeCnt <= MaxNodes
    requires runtime.instance.Valid() && runtime.instance.gossipers == map[]
    modifies runtime.instance
    ensures runtime.instance == old(runtime.instance) && runtime.instance.Valid()
    ensures runtime.instance.gossipers == SetupRegistry(nodeCnt, seeds, valueOf)
  {
    var i := 0;
    while i < nodeCnt
      invariant 0 <= i <= nodeCnt
      invariant runtime.instance == old(runtime.instance) && runtime.instance.Valid()
      invariant runtime.instance.gossipers == SetupRegistry(i, seeds, valueOf)
    {
      var addr := GetInetAddr(i);
      var simulator := Started(addr, seeds, InitialAppStates(addr, valueOf));
      var current := runtime.Instance();
      SetupRegistryStep(i, seeds, valueOf);
      current.Register(simulator);
      i := i + 1;
    }
  }

  /** What `runSimulation(seedCnt, nodeCnt)` does before it waits on the
      latch: a fresh router, the seed list, the latch and barrier action, and
      one started participant per node index, registered under its address. */
  method RunSimulationSetup(runtime: MessagingRuntime, seedCnt: nat, nodeCnt: nat,
                            valueOf: (InetAddr, StateKey) -> VersionedValue)
    returns (seeds: seq<InetAddr>, action: BarrierAction)
    requires SetupPrecondition(seedCnt, nodeCnt)
    modifies runtime
    ensures fresh(runtime.instance) && fresh(action) && fresh(action.latch)
    ensures |seeds| == seedCnt && forall i :: 0 <= i < seedCnt ==> seeds[i] == GetInetAddr(i)
    ensures runtime.instance.Valid()
    ensures runtime.instance.gossipers == SetupRegistry(nodeCnt, seeds, valueOf)
    ensures action.Valid() && action.State() == InitialRound
  {
    runtime.RenewInstance();
    seeds := SeedList(seedCnt);
    var latch := new Latch(1);
    action := new BarrierAction(latch);
    RegisterNodes(runtime, seeds, nodeCnt, valueOf);
  }

  /** Right after set-up every participant holds its own entry, as the
      oracle needs. */
  lemma SetupRegistrySelfViews(nodeCnt: nat, seeds: seq<InetAddr>,
                               valueOf: (InetAddr, StateKey) -> VersionedValue)
    requires nodeCnt <= MaxNodes
    ensures SelfViewsPresent(SetupRegistry(nodeCnt, seeds, valueOf))
  {
    var gossipers := SetupRegistry(nodeCnt, seeds, valueOf);
    SetupRegistryValues(nodeCnt, seeds, valueOf);
    forall a | a in gossipers ensures a in gossipers[a].endpointStateMap {
      assert gossipers[a] == Started(a, seeds, InitialAppStates(a, valueOf));
      StartedKnowsOnlyItself(a, seeds, InitialAppStates(a, valueOf), a);
    }
  }

  /** Node index `i` below `n` is registered, as the participant started
      for its address. */
  lemma SetupRegistryEntry(n: nat, seeds: seq<InetAddr>,
                           valueOf: (InetAddr, StateKey) -> VersionedValue, i: nat)
    requires i < n <= MaxNodes
    ensures GetInetAddr(i) in SetupRegistry(n, seeds, valueOf)
    ensures SetupRegistry(n, seeds, valueOf)[GetInetAddr(i)]
      == Started(GetInetAddr(i), seeds, InitialAppStates(GetInetAddr(i), valueOf))
  {
    SetupRegistryKeys(n, seeds, valueOf);
    SetupRegistryValues(n, seeds, valueOf);
    assert IsNodeAddr(GetInetAddr(i), n);
  }

  /** Right after set-up no participant knows any other: the participant of
      node index `i` holds no entry for the address of node index `j`. */
  lemma SetupRegistryStrangers(n: nat, seeds: seq<InetAddr>,
                               valueOf: (InetAddr, StateKey) -> VersionedValue, i: nat, j: nat)
    requires i < n && j < n && i != j && n <= MaxNodes
    ensures GetInetAddr(i) in SetupRegistry(n, seeds, valueOf)
    ensures GetInetAddr(j) !in SetupRegistry(n, seeds, valueOf)[GetInetAddr(i)].endpointStateMap
  {
    SetupRegistryEntry(n, seeds, valueOf, i);
    GetInetAddrInjective(i, j);
    StartedKnowsOnlyItself(GetInetAddr(i), seeds, InitialAppStates(GetInetAddr(i), valueOf), GetInetAddr(j));
  }

  /** With two or more nodes, no participant knows the others right after
      set-up, so the registry has not converged. */
  lemma SetupRegistryNotConverged(nodeCnt: nat, seeds: seq<InetAddr>,
                                  valueOf: (InetAddr, StateKey) -> VersionedValue)
    requires 2 <= nodeCnt <= MaxNodes
    ensures SelfViewsPresent(SetupRegistry(nodeCnt, seeds, valueOf))
    ensures !Converged(SetupRegistry(nodeCnt, seeds, valueOf))
  {
    SetupRegistrySelfViews(nodeCnt, seeds, valueOf);
    var i, j := nodeCnt - 1, nodeCnt - 2;
    SetupRegistryStrangers(nodeCnt, seeds, valueOf, i, j);
    SetupRegistryEntry(nodeCnt, seeds, valueOf, j);
    UnknownPeerDiverges(SetupRegistry(nodeCnt, seeds, valueOf), GetInetAddr(i), GetInetAddr(j));
  }

  // ---------------------------------------------------------------------
  // The latch and the round-completion action
  // ---------------------------------------------------------------------

  /** A CountDownLatch: `countDown` at zero has no effect. */
  function CountedDown(count: nat): nat
  {
    if count == 0 then 0 else count - 1
  }

  class Latch {
    var count: nat

    constructor (count: nat)
      ensures this.count == count
    {
      this.count := count;
    }

    method CountDown()
      modifies this
      ensures count == CountedDown(old(count))
      ensures old(count) > 0 ==> count == old(count) - 1
      ensures old(count) == 0 ==> count == 0
    {
      if count > 0 {
        count := count - 1;
      }
    }
  }

  /** The action's fields and the latch count, as one value. */
  datatype RoundState = RoundState(counter: nat, lastConvergenceRound: nat, latchCount: nat)

  /** A fresh action over a one-count latch. */
  const InitialRound: RoundState := RoundState(0, 0, 1)

  /** One barrier release, given the verdict the oracle would give: round 1
      never consults it; a converged later round records itself and counts the
      latch down; any other round only advances the counter. */
  function Step(s: RoundState, converged: bool): RoundState
  {
    var counter := s.counter + 1;
    if counter >= 2 && converged then RoundState(counter, counter, CountedDown(s.latchCount))
    else s.(counter := counter)
  }

  class BarrierAction {
    var counter: nat
    var lastConvergenceRound: nat
    const latch: Latch

    /** A recorded convergence round is 0 (none yet) or a round from 2 on
        that has already happened. */
    ghost predicate Valid()
      reads this
    {
      lastConvergenceRound <= counter && lastConvergenceRound != 1
    }

    function State(): RoundState
      reads this, latch
    {
      RoundState(counter, lastConvergenceRound, latch.count)
    }

    constructor (latch: Latch)
      ensures this.latch == latch
      ensures counter == 0 && lastConvergenceRound == 0
      ensures Valid()
    {
      this.latch := latch;
      counter, lastConvergenceRound := 0, 0;
    }

    /** `run()`: count the round; from round 2 on inspect the registry of the
        current router, and on convergence record the round and count the
        latch down. */
    method Run(runtime: MessagingRuntime)
      requires Valid()
      requires counter >= 1 ==> SelfViewsPresent(runtime.instance.gossipers)
      modifies this, latch
      ensures Valid()
      ensures counter == old(counter) + 1
      ensures counter == 1 ==>
        lastConvergenceRound == old(lastConvergenceRound) && latch.count == old(latch.count)
      ensures counter >= 2 ==>
        if Converged(runtime.instance.gossipers)
        then lastConvergenceRound == counter && latch.count == CountedDown(old(latch.count))
        else lastConvergenceRound == old(lastConvergenceRound) && latch.count == old(latch.count)
      ensures State() == Step(old(State()), counter >= 2 && Converged(runtime.instance.gossipers))
    {
      counter := counter + 1;
      if counter <= 1 {
        return;
      }
      var service := runtime.Instance();
      var convergedByInspection := HasConvergedByInspection(service.gossipers);
      if convergedByInspection {
        lastConvergenceRound := counter;
        latch.CountDown();
      }
    }
  }

  // ---------------------------------------------------------------------
  // Runs of rounds
  // ---------------------------------------------------------------------

  /** The state after successive rounds whose oracle verdicts are `verdicts`. */
  function Rounds(s: RoundState, verdicts: seq<bool>): RoundState
    decreases |verdicts|
  {
    if verdicts == [] then s else Rounds(Step(s, verdicts[0]), verdicts[1..])
  }

  /** How many of the rounds that follow round `counter` are converged rounds
      from round 2 on. */
  function ConvergedRounds(counter: nat, verdicts: seq<bool>): nat
    decreases |verdicts|
  {
    if verdicts == [] then 0
    else (if counter + 1 >= 2 && verdicts[0] then 1 else 0) + ConvergedRounds(counter + 1, verdicts[1..])
  }

  /** Every round advances the counter by one, and each converged round from
      round 2 on takes one off the latch, which stops at zero. */
  lemma {:induction false} RoundsEffect(s: RoundState, verdicts: seq<bool>)
    ensures Rounds(s, verdicts).counter == s.counter + |verdicts|
    ensures Rounds(s, verdicts).latchCount
      == if s.latchCount >= ConvergedRounds(s.counter, verdicts)
         then s.latchCount - ConvergedRounds(s.counter, verdicts) else 0
    decreases |verdicts|
  {
    if verdicts != [] {
      RoundsEffect(Step(s, verdicts[0]), verdicts[1..]);
    }
  }

  /** There is a converged round from round 2 on exactly when some verdict
      after the first round is true. */
  lemma {:induction false} ConvergedRoundsPositive(counter: nat, verdicts: seq<bool>)
    ensures ConvergedRounds(counter, verdicts) > 0
      <==> exists k :: 0 <= k < |verdicts| && counter + k >= 1 && verdicts[k]
    decreases |verdicts|
  {
    if verdicts != [] {
      ConvergedRoundsPositive(counter + 1, verdicts[1..]);
      if exists k :: 0 <= k < |verdicts| && counter + k >= 1 && verdicts[k] {
        var k :| 0 <= k < |verdicts| && counter + k >= 1 && verdicts[k];
        if k > 0 {
          assert verdicts[1..][k - 1] == verdicts[k];
        }
      }
      if exists k :: 0 <= k < |verdicts| - 1 && counter + 1 + k >= 1 && verdicts[1..][k] {
        var k :| 0 <= k < |verdicts| - 1 && counter + 1 + k >= 1 && verdicts[1..][k];
        assert verdicts[k + 1] == verdicts[1..][k];
      }
    }
  }

  /** From a fresh action, the driver's latch is released exactly when some
      round other than the first is converged: a convergence seen in round 1
      never releases it. */
  lemma LatchReleasedIffConvergedAfterFirstRound(verdicts: seq<bool>)
    ensures Rounds(InitialRound, verdicts).latchCount == 0
      <==> exists k :: 1 <= k < |verdicts| && verdicts[k]
  {
    RoundsEffect(InitialRound, verdicts);
    ConvergedRoundsPositive(0, verdicts);
  }
}
