# Gossip simulation harness, modelled in Dafny

The harness runs Cassandra's gossip protocol over many in-process
participants (GossiperSimulator objects) instead of over a network. This
project models the harness itself:

- the driver `Simulator`: loop-back address allocation (`getInetAddr`), the
  set-up of one run (reset the router, build the seed list, create the latch
  and the round-completion action, start and register one participant per
  node), and the round-completion action `BarrierAction`, whose convergence
  oracle `hasConvergedByInspection` decides when the run is over;
- the in-memory router `CustomMessagingService` in both copies (package
  `gms`, with a replaceable singleton, and package `gms.helpers`, with a
  static registry): registration, and `sendOneWay`, which looks the
  destination up and hands the message to the handler for its verb;
- `UniqueHeartBeatState`, a heartbeat whose version comes from a private
  counter.

Layout, one module per file:

| file | module | what |
|---|---|---|
| `types.dfy` | `GossipTypes` | addresses, heartbeats, versioned values, endpoint states, a participant as the harness sees it, the registry |
| `heartbeat.dfy` | `HeartBeat` | `UniqueHeartBeatState` as a class; 32-bit counter wrap-around written out |
| `routing.dfy` | `Routing` | `Route`, the specification both `sendOneWay` methods are proved against, and its properties |
| `gms_messaging.dfy` | `GmsMessaging` | the `gms` router as a class, plus the static `INSTANCE` slot and `renewInstance` |
| `helpers_messaging.dfy` | `HelpersMessaging` | the `gms.helpers` router |
| `convergence.dfy` | `Convergence` | the declarative meaning of convergence, and the oracle's loop nest proved equal to it |
| `simulator.dfy` | `Simulator` | addresses, run set-up, the latch, the round-completion action and runs of rounds |

The participants are external: the harness only reads a participant's
broadcast address, seed list and endpoint-state map, so a participant is a
value holding those three (`GossipTypes.Gossiper`), and a delivery is
recorded as the handler call it makes (`Routing.HandlerCall`).

## Model

| member | source | states |
|---|---|---|
| `HeartBeat.Inc32` | src/main/java/org/apache/cassandra/gms/UniqueHeartBeatState.java:22-25 | the counter increment is two's-complement addition of one on a 32-bit int, and plain `+1` below `MaxInt` |
| `HeartBeat.UniqueHeartBeatState.constructor` | src/main/java/org/apache/cassandra/gms/UniqueHeartBeatState.java:10-13 | the one-argument constructor gives generation `gen` with counter and published version both 0 |
| `HeartBeat.UniqueHeartBeatState.WithVersion` | src/main/java/org/apache/cassandra/gms/UniqueHeartBeatState.java:15-20 | the two-argument constructor starts the counter and the published version at `ver` |
| `HeartBeat.UniqueHeartBeatState.UpdateHeartBeat` | src/main/java/org/apache/cassandra/gms/UniqueHeartBeatState.java:22-25 | the counter advances by one (wrapping at `MaxInt`), the published version becomes the new counter value, the generation is unchanged |
| `HeartBeat.UniqueHeartBeatState.GetHeartBeatVersion` | src/main/java/org/apache/cassandra/gms/UniqueHeartBeatState.java:27-30 | returns the last published version and changes nothing |
| `HeartBeat.VersionsAfter` | src/main/java/org/apache/cassandra/gms/UniqueHeartBeatState.java:22-30 | `n` update-and-read rounds read `n` versions |
| `HeartBeat.PublishRounds` | src/main/java/org/apache/cassandra/gms/UniqueHeartBeatState.java:22-30 | alternating `updateHeartBeat` and `getHeartBeatVersion` on one object reads exactly `VersionsAfter` of the starting version, leaves the last of them published and keeps the generation |
| `HeartBeat.VersionsAfterAt` | src/main/java/org/apache/cassandra/gms/UniqueHeartBeatState.java:22-30 | below the overflow point, the version read after the (i+1)-th update from version `v` is `v + i + 1` |
| `HeartBeat.VersionsStrictlyIncrease` | src/main/java/org/apache/cassandra/gms/UniqueHeartBeatState.java:22-30 | successive updates publish strictly increasing, hence never repeated, versions while the counter stays below `MaxInt` |
| `HeartBeat.VersionWrapsAtMaxInt` | src/main/java/org/apache/cassandra/gms/UniqueHeartBeatState.java:22-25 | one update from `MaxInt` publishes `MinInt`, a smaller version than before |
| `Routing.RouteFailsIffUnknown` | src/main/java/org/apache/cassandra/gms/CustomMessagingService.java:42-44 | a send fails with the unknown-peer error exactly when the destination is not registered |
| `Routing.RouteHandlesIffGossipVerb` | src/main/java/org/apache/cassandra/gms/CustomMessagingService.java:46-60 | a handler runs exactly when the destination is registered and the verb is SYN, ACK or ACK2; any other verb to a registered destination is dropped without error |
| `Routing.RouteDeliversToTarget` | src/main/java/org/apache/cassandra/gms/CustomMessagingService.java:42-59 | the handler for the message's own verb runs on the registered target, which is the participant at the destination address, with an inbound copy keeping sender address, payload and verb, the shared parameters and version 0 |
| `Routing.RoutePassesSender` | src/main/java/org/apache/cassandra/gms/CustomMessagingService.java:48-58 | SYN and ACK handler calls carry the sending participant; an ACK2 delivery is the same whichever participant sent it |
| `Routing.RouteAfterRegister` | src/main/java/org/apache/cassandra/gms/CustomMessagingService.java:72-75 | after registering `g`, gossip sent to its address reaches `g`, and sends to every other address are unchanged |
| `Routing.RouteOnEmptyRegistry` | src/main/java/org/apache/cassandra/gms/CustomMessagingService.java:35-38 | on a renewed, empty registry every send fails with the unknown-peer error |
| `GmsMessaging.CustomMessagingService.constructor` | src/main/java/org/apache/cassandra/gms/CustomMessagingService.java:21-27 | a new service has an empty registry |
| `GmsMessaging.CustomMessagingService.Register` | src/main/java/org/apache/cassandra/gms/CustomMessagingService.java:72-75 | the participant is filed under its broadcast address, replacing any earlier entry there and keeping all others; entries stay filed under their own addresses |
| `GmsMessaging.CustomMessagingService.SendOneWay` | src/main/java/org/apache/cassandra/gms/CustomMessagingService.java:40-61 | the outcome is `Route` of the current registry, so every `Routing` lemma applies to it |
| `GmsMessaging.MessagingRuntime.constructor` | src/main/java/org/apache/cassandra/gms/CustomMessagingService.java:19 | class initialisation installs a new, empty service |
| `GmsMessaging.MessagingRuntime.Instance` | src/main/java/org/apache/cassandra/gms/CustomMessagingService.java:29-32 | returns the installed service without side effects |
| `GmsMessaging.MessagingRuntime.RenewInstance` | src/main/java/org/apache/cassandra/gms/CustomMessagingService.java:34-38 | a brand-new service, different from the old one, with an empty registry takes the slot |
| `HelpersMessaging.CustomMessagingService.constructor` | src/main/java/org/apache/cassandra/gms/helpers/CustomMessagingService.java:21 | the static registry starts empty |
| `HelpersMessaging.CustomMessagingService.Register` | src/main/java/org/apache/cassandra/gms/helpers/CustomMessagingService.java:48-51 | the participant is filed under its broadcast address, replacing any earlier entry there and keeping all others |
| `HelpersMessaging.CustomMessagingService.SendOneWay` | src/main/java/org/apache/cassandra/gms/helpers/CustomMessagingService.java:25-46 | the outcome is `Route` of the static registry, the same routing as the `gms` copy |
| `HelpersMessaging.HelpersRuntime.constructor` | src/main/java/org/apache/cassandra/gms/helpers/CustomMessagingService.java:14 | the single instance is created once, with an empty registry |
| `HelpersMessaging.HelpersRuntime.Instance` | src/main/java/org/apache/cassandra/gms/helpers/CustomMessagingService.java:16-19 | always returns that same instance |
| `Convergence.ListRemove` | src/main/java/org/apache/cassandra/gms/Simulator.java:178 | removal reports whether the element was present; if it was, the result is the list with its first occurrence cut out and everything else in order, otherwise the list is unchanged; a duplicate-free list stays duplicate-free without the removed element |
| `Convergence.KeyList` | src/main/java/org/apache/cassandra/gms/Simulator.java:172 | the copied list holds each key exactly once and nothing else |
| `Convergence.CompareAppStates` | src/main/java/org/apache/cassandra/gms/Simulator.java:198-218 | the comparison succeeds exactly when both sides have the same application-state kinds with equal versions per kind |
| `Convergence.NodeHasConverged` | src/main/java/org/apache/cassandra/gms/Simulator.java:172-228 | one participant passes exactly when it knows precisely the registered addresses and each of its views of another participant agrees with that participant's own view in generation and application states |
| `Convergence.HasConvergedByInspection` | src/main/java/org/apache/cassandra/gms/Simulator.java:167-231 | the oracle answers true exactly when every registered participant passes (`Converged`) |
| `Convergence.UnregisteredAddressDiverges` | src/main/java/org/apache/cassandra/gms/Simulator.java:174-179 | a participant that knows an unregistered address means no convergence |
| `Convergence.UnknownPeerDiverges` | src/main/java/org/apache/cassandra/gms/Simulator.java:221-228 | a participant that does not know some registered address means no convergence |
| `Convergence.GenerationMismatchDiverges` | src/main/java/org/apache/cassandra/gms/Simulator.java:190-195 | a view of another participant with a different generation means no convergence |
| `Convergence.WithHeartBeatVersion` | src/main/java/org/apache/cassandra/gms/Simulator.java:187-189 | changing one recorded heartbeat version keeps the registered addresses, the participants' addresses and what each participant knows |
| `Convergence.HeartBeatVersionIgnored` | src/main/java/org/apache/cassandra/gms/Simulator.java:187-190 | the verdict does not depend on any recorded heartbeat version |
| `Convergence.AppStatesAgreeEquivalence` | src/main/java/org/apache/cassandra/gms/Simulator.java:198-218 | agreement of application states is reflexive, symmetric and transitive |
| `Convergence.ConvergedViewsConsistent` | src/main/java/org/apache/cassandra/gms/Simulator.java:167-231 | on a converged registry two participants see each other as each sees itself, and agree on every third participant |
| `Simulator.GetInetAddr` | src/main/java/org/apache/cassandra/gms/Simulator.java:92-96 | node `i` gets an address 127.0.x.y with y at most 254, from which `AddrIndex` reads `i` back |
| `Simulator.GetInetAddrInjective` | src/main/java/org/apache/cassandra/gms/Simulator.java:92-96 | two node indices get the same address exactly when they are equal |
| `Simulator.AddrIndexRoundTrip` | src/main/java/org/apache/cassandra/gms/Simulator.java:94-96 | every address 127.0.x.y with y at most 254 is the one allocated to the index read back from it |
| `Simulator.NodeAddrs` | src/main/java/org/apache/cassandra/gms/Simulator.java:57-60 | the addresses allocated to nodes `0 .. n-1` are exactly the 127.0.x.y addresses with y at most 254 whose index is below `n` |
| `Simulator.NodeAddrsCount` | src/main/java/org/apache/cassandra/gms/Simulator.java:57-60 | `n` nodes get `n` different addresses |
| `Simulator.AsWrittenAssertionRejectsTheOnlyCall` | src/main/java/org/apache/cassandra/gms/Simulator.java:46 | the program's own run (20 seeds, 1200 nodes) fails the assertion as written and meets the intended precondition |
| `Simulator.AsWrittenAssertionAdmitsUnregisteredSeed` | src/main/java/org/apache/cassandra/gms/Simulator.java:46-53 | whenever the assertion as written holds, the seed list contains an address no node is registered under |
| `Simulator.SeedsAreRegistered` | src/main/java/org/apache/cassandra/gms/Simulator.java:49-61 | with fewer seeds than nodes every seed is the address of a registered node |
| `Simulator.SeedList` | src/main/java/org/apache/cassandra/gms/Simulator.java:49-53 | the seed list holds the addresses of nodes `0 .. seedCnt-1`, in order |
| `Simulator.InitialAppStates` | src/main/java/org/apache/cassandra/gms/Simulator.java:64-68 | a participant starts with exactly the network-version, host-id, RPC-address and release-version states, each with the value the factory gives for it |
| `Simulator.StartedKnowsOnlyItself` | src/main/java/org/apache/cassandra/gms/Simulator.java:60-70 | a just-started participant answers to its address, keeps the seed list, and knows only itself, at generation 0 with the given application states |
| `Simulator.SetupRegistryStep` | src/main/java/org/apache/cassandra/gms/Simulator.java:57-62 | each loop iteration adds the next node's participant under its address |
| `Simulator.SetupRegistryKeys` | src/main/java/org/apache/cassandra/gms/Simulator.java:57-62 | after set-up exactly the addresses of nodes `0 .. nodeCnt-1` are registered |
| `Simulator.SetupRegistryValues` | src/main/java/org/apache/cassandra/gms/Simulator.java:57-71 | after set-up each registered address holds the participant started for it |
| `Simulator.SetupRegistryEntry` | src/main/java/org/apache/cassandra/gms/Simulator.java:57-71 | every node index below `nodeCnt` is registered, as the participant started for its address |
| `Simulator.RegisterNodes` | src/main/java/org/apache/cassandra/gms/Simulator.java:57-71 | the registration loop leaves the current router's registry equal to the set-up registry |
| `Simulator.RunSimulationSetup` | src/main/java/org/apache/cassandra/gms/Simulator.java:44-71 | set-up installs a fresh router holding exactly the set-up registry, builds the seed list, and creates a fresh round action in its initial state over a fresh one-count latch |
| `Simulator.SetupRegistrySelfViews` | src/main/java/org/apache/cassandra/gms/Simulator.java:57-71 | right after set-up every participant holds an entry for itself |
| `Simulator.SetupRegistryStrangers` | src/main/java/org/apache/cassandra/gms/Simulator.java:57-71 | right after set-up no participant knows any other |
| `Simulator.SetupRegistryNotConverged` | src/main/java/org/apache/cassandra/gms/Simulator.java:57-71 | with two or more nodes the registry right after set-up has not converged |
| `Simulator.Latch.constructor` | src/main/java/org/apache/cassandra/gms/Simulator.java:55 | the latch starts at the given count |
| `Simulator.Latch.CountDown` | src/main/java/org/apache/cassandra/gms/Simulator.java:138 | counting down takes one off a positive count and leaves zero at zero |
| `Simulator.BarrierAction.constructor` | src/main/java/org/apache/cassandra/gms/Simulator.java:109-116 | a new action has counted no round and recorded no convergence |
| `Simulator.BarrierAction.Run` | src/main/java/org/apache/cassandra/gms/Simulator.java:118-145 | each run counts one round; round 1 changes nothing else; from round 2 on a converged registry records the round and counts the latch down, a non-converged one changes nothing else; a recorded convergence round is 0 or at least 2 and never ahead of the counter |
| `Simulator.RoundsEffect` | src/main/java/org/apache/cassandra/gms/Simulator.java:118-145 | over a sequence of rounds the counter grows by their number and the latch loses one per converged round from round 2 on, stopping at zero |
| `Simulator.ConvergedRoundsPositive` | src/main/java/org/apache/cassandra/gms/Simulator.java:122-139 | some round counts the latch down exactly when some verdict after round 1 is positive |
| `Simulator.LatchReleasedIffConvergedAfterFirstRound` | src/main/java/org/apache/cassandra/gms/Simulator.java:55-145 | from a fresh action the driver's latch opens exactly when some round other than the first sees a converged registry |

## Left out

- Threads, the `CyclicBarrier`, `latch.await` with its ten-minute timeout, terminating the participants and the sleeps: a run is modelled up to the point where it waits, and rounds as a sequence of oracle verdicts.
- The participants' gossip (`GossiperSimulator`, its `start`, the three verb handlers): external code, recorded as values and handler calls.
- `hasConvergedViaGossip` and `generateDelay`: neither is called.
- `main` and logging, and the repeated `runSimulation(seedCnt, nodeCnt, rounds)` loop around set-up.
- `Simulator.GetInetAddr`: requires an index below 65280; beyond it the third octet exceeds 255 and the Java falls back to a host-name lookup, which is I/O.
- `Simulator.StartedKnowsOnlyItself`: `start(0, appStates)` is external; a just-started participant is taken to know only itself at generation 0, heartbeat version 0.
- `Simulator.InitialAppStates`: the value factory and the random host-id UUID become the parameter `valueOf`.
- `Simulator.RunSimulationSetup`: registers the started participant value, whereas the Java registers the object before calling `start` on it; with objects shared by reference the two agree.
- `Convergence.HasConvergedByInspection`: requires every registered participant to hold its own entry; otherwise the Java dereferences a missing entry, a NullPointerException whose occurrence depends on iteration order.
- A `VersionedValue` is kept by its version only, since the oracle compares values with `compareTo`, which orders by version.
- The `version` field inherited by `UniqueHeartBeatState` from `HeartBeatState` is not modelled; only the counter and the published version are.
- `Simulator.BarrierAction.Run`: the round counter is a `nat`; the Java `int` would wrap after 2^31 rounds.
- `HelpersMessaging.CustomMessagingService`: the static `gossipers` map is a field of the one instance `HelpersRuntime` holds; a second `new CustomMessagingService()` in Java would share that map, while in the model it gets a registry of its own.
- Concurrent access to the `ConcurrentHashMap` registries and the `AtomicInteger`: every operation is modelled as one atomic step.
- The payload casts in `sendOneWay` (a mismatched payload throws ClassCastException): payloads are opaque.
- `helpers/Simulator.java` and the `net.jasondev` router stub are not part of this model.

## Findings

| source | as written | input that shows it | evidently intended | confidence | as-written member | corrected member |
|---|---|---|---|---|---|---|
| src/main/java/org/apache/cassandra/gms/Simulator.java:46 | `runSimulation` asserts `seedCnt > nodeCnt` | the program's only run, 20 seeds and 1200 nodes (line 31), fails it; any input that passes it, such as 3 seeds and 2 nodes, seeds the address 127.0.0.2 at which nothing is registered | fewer seeds than nodes, so every seed is a registered node | not executed | `Simulator.AsWrittenAssertionAdmitsUnregisteredSeed` | `Simulator.SeedsAreRegistered` |
