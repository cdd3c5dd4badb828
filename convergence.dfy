/**
  The convergence oracle (`BarrierAction.hasConvergedByInspection`): every
  participant must know exactly the registered addresses, and its view of
  every other participant must agree with that participant's view of itself
  in generation, application-state kinds and per-kind versions. Heartbeat
  versions are deliberately not compared.

  `Converged` states this declaratively; `HasConvergedByInspection` is the
  source's loop nest, with its ArrayList work lists, proved equal to it.
 */
module Convergence {
  import opened GossipTypes

  // ---------------------------------------------------------------------
  // Work lists (java.util.ArrayList of distinct elements)
  // ---------------------------------------------------------------------

  predicate Distinct<T(==)>(s: seq<T>)
  {
    forall i, j :: 0 <= i < j < |s| ==> s[i] != s[j]
  }

  /** `ArrayList.remove(Object)`: drops the first occurrence of `x` and
      reports whether there was one. */
  function ListRemove<T(==,!new)>(s: seq<T>, x: T): (r: (bool, seq<T>))
    ensures r.0 == (x in s)
    ensures !r.0 ==> r.1 == s
    ensures r.0 ==> |r.1| == |s| - 1
    ensures forall y :: y != x ==> (y in r.1 <==> y in s)
    ensures Distinct(s) ==> Distinct(r.1) && x !in r.1
    ensures r.0 ==> RemovedFirst(s, x, r.1)
  {
    if s == [] then (false, [])
    else if s[0] == x then
      RemovedFirstHead(s);
      DistinctSplit(s);
      (true, s[1..])
    else
      var t := ListRemove(s[1..], x);
      DistinctSplit(s);
      assert Distinct(s) ==> Distinct([s[0]] + t.1) by {
        if Distinct(s) { DistinctCons(s[0], t.1); }
      }
      assert t.0 ==> RemovedFirst(s, x, [s[0]] + t.1) by {
        if t.0 { RemovedFirstCons(s, x, t.1); }
      }
      (t.0, [s[0]] + t.1)
  }

  /** A list is duplicate-free exactly when its tail is and its head does
      not recur in the tail. */
  lemma DistinctSplit<T>(s: seq<T>)
    requires s != []
    ensures Distinct(s) ==> Distinct(s[1..]) && s[0] !in s[1..]
  {
    if Distinct(s) {
      forall i, j | 0 <= i < j < |s[1..]| ensures s[1..][i] != s[1..][j] {
        assert s[1..][i] == s[i + 1] && s[1..][j] == s[j + 1];
      }
    }
  }

  /** Prepending an element not in a duplicate-free list keeps it so. */
  lemma DistinctCons<T>(h: T, t: seq<T>)
    requires Distinct(t) && h !in t
    ensures Distinct([h] + t)
  {
  }

  /** Removing the head when it is the element sought. */
  lemma RemovedFirstHead<T>(s: seq<T>)
    requires s != []
    ensures RemovedFirst(s, s[0], s[1..])
  {
    assert s[1..] == s[..0] + s[0 + 1..];
  }

  /** `rest` is `s` without its first occurrence of `x`. */
  predicate RemovedFirst<T(==)>(s: seq<T>, x: T, rest: seq<T>)
  {
    exists i :: 0 <= i < |s| && s[i] == x && x !in s[..i] && rest == s[..i] + s[i + 1..]
  }

  /** Removing the first `x` from a list whose head is not `x` keeps the head. */
  lemma RemovedFirstCons<T>(s: seq<T>, x: T, rest: seq<T>)
    requires s != [] && s[0] != x && RemovedFirst(s[1..], x, rest)
    ensures RemovedFirst(s, x, [s[0]] + rest)
  {
    var k :| 0 <= k < |s[1..]| && s[1..][k] == x && x !in s[1..][..k] && rest == s[1..][..k] + s[1..][k + 1..];
    assert s[..k + 1] == [s[0]] + s[1..][..k];
    assert s[k + 1 + 1..] == s[1..][k + 1..];
    assert s[k + 1] == x && [s[0]] + rest == s[..k + 1] + s[k + 1 + 1..];
  }

  /** `new ArrayList<>(keys)`: the keys, each once, in some order. */
  method KeyList<T(==)>(keys: set<T>) returns (list: seq<T>)
    ensures Distinct(list)
    ensures forall x :: x in list <==> x in keys
  {
    list := [];
    var rest := keys;
    while rest != {}
      invariant rest <= keys
      invariant Distinct(list)
      invariant forall x :: x in list <==> x in keys && x !in rest
    {
      var x :| x in rest;
      list := list + [x];
      rest := rest - {x};
    }
  }

  // ---------------------------------------------------------------------
  // What convergence means
  // ---------------------------------------------------------------------

  /** Same application-state kinds on both sides, and equal versions for
      each kind (a VersionedValue compares by its version). */
  predicate AppStatesAgree(local: AppStates, peer: AppStates)
  {
    && local.Keys == peer.Keys
    && forall k :: k in local ==> local[k].version == peer[k].version
  }

  /** A recorded view of a peer agrees with the peer's own view of itself:
      same generation, agreeing application states; the heartbeat version
      plays no part. */
  predicate ViewAgrees(local: EndpointState, own: EndpointState)
  {
    && local.heartBeat.generation == own.heartBeat.generation
    && AppStatesAgree(local.appStates, own.appStates)
  }

  /** Every registered participant holds an entry for itself (the oracle
      dereferences it for every peer it compares). */
  predicate SelfViewsPresent(gossipers: Registry)
  {
    forall a :: a in gossipers ==> a in gossipers[a].endpointStateMap
  }

  /** The registered participant at `p`'s view of itself. */
  function OwnView(gossipers: Registry, p: InetAddr): EndpointState
    requires SelfViewsPresent(gossipers) && p in gossipers
  {
    gossipers[p].endpointStateMap[p]
  }

  /** Participant `g` knows exactly the registered addresses, and its view of
      every address other than its own agrees with that peer's own view. */
  predicate NodeConverged(gossipers: Registry, g: Gossiper)
    requires SelfViewsPresent(gossipers)
  {
    && g.endpointStateMap.Keys == gossipers.Keys
    && forall p :: p in g.endpointStateMap && p != g.broadcastAddr ==>
         ViewAgrees(g.endpointStateMap[p], OwnView(gossipers, p))
  }

  predicate Converged(gossipers: Registry)
    requires SelfViewsPresent(gossipers)
  {
    forall a :: a in gossipers ==> NodeConverged(gossipers, gossipers[a])
  }

  // ---------------------------------------------------------------------
  // The oracle as the source runs it
  // ---------------------------------------------------------------------

  /** The application-state comparison for one peer: walk the local entries,
      striking each kind off a list of the peer's kinds, and finally require
      the list to be empty. */
  method CompareAppStates(local: AppStates, peer: AppStates) returns (agree: bool)
    ensures agree == AppStatesAgree(local, peer)
  {
    var peerAppStates := KeyList(peer.Keys);
    var remaining := local.Keys;
    while remaining != {}
      invariant remaining <= local.Keys
      invariant Distinct(peerAppStates)
      invariant forall k :: k in peerAppStates <==> k in peer && (k !in local || k in remaining)
      invariant forall k :: k in local && k !in remaining ==> k in peer && local[k].version == peer[k].version
    {
      var appState :| appState in remaining;
      remaining := remaining - {appState};
      var removal := ListRemove(peerAppStates, appState);
      peerAppStates := removal.1;
      if !removal.0 {
        assert appState !in peer.Keys;
        return false;
      }
      if local[appState].version != peer[appState].version {
        return false;
      }
    }
    if peerAppStates != [] {
      var extra := peerAppStates[0];
      assert extra in peerAppStates;
      assert extra in peer.Keys - local.Keys;
      return false;
    }
    return true;
  }

  /** The checks for one participant: each address it knows is struck off a
      list of the registered addresses (an unregistered one fails), its own
      entry is skipped, every other entry is compared with the peer's own
      view, and finally no registered address may be left unknown. */
  method NodeHasConverged(gossipers: Registry, simulator: Gossiper) returns (converged: bool)
    requires SelfViewsPresent(gossipers)
    ensures converged == NodeConverged(gossipers, simulator)
  {
    var view := simulator.endpointStateMap;
    var peerAddrs := KeyList(gossipers.Keys);
    var entries := view.Keys;
    while entries != {}
      invariant entries <= view.Keys
      invariant Distinct(peerAddrs)
      invariant forall a :: a in peerAddrs <==> a in gossipers && (a !in view || a in entries)
      invariant forall p :: p in view && p !in entries ==> p in gossipers
      invariant forall p :: p in view && p !in entries && p != simulator.broadcastAddr ==>
                  ViewAgrees(view[p], OwnView(gossipers, p))
    {
      var peerAddr :| peerAddr in entries;
      entries := entries - {peerAddr};
      var removal := ListRemove(peerAddrs, peerAddr);
      peerAddrs := removal.1;
      if !removal.0 {
        assert peerAddr in view.Keys - gossipers.Keys;
        return false;
      }
      if peerAddr == simulator.broadcastAddr {
        continue;
      }
      var localEndpointState := view[peerAddr];
      var peerEndpointState := gossipers[peerAddr].endpointStateMap[peerAddr];
      if localEndpointState.heartBeat.generation != peerEndpointState.heartBeat.generation {
        assert !ViewAgrees(view[peerAddr], OwnView(gossipers, peerAddr));
        return false;
      }
      var agree := CompareAppStates(localEndpointState.appStates, peerEndpointState.appStates);
      if !agree {
        assert !ViewAgrees(view[peerAddr], OwnView(gossipers, peerAddr));
        return false;
      }
    }
    if peerAddrs != [] {
      var unknown := peerAddrs[0];
      assert unknown in peerAddrs;
      assert unknown in gossipers.Keys - view.Keys;
      return false;
    }
    return true;
  }

  /** `hasConvergedByInspection`: every registered participant in turn; the
      first divergence ends the inspection. */
  method HasConvergedByInspection(gossipers: Registry) returns (converged: bool)
    requires SelfViewsPresent(gossipers)
    ensures converged == Converged(gossipers)
  {
    var pending := gossipers.Keys;
    while pending != {}
      invariant pending <= gossipers.Keys
      invariant forall a :: a in gossipers && a !in pending ==> NodeConverged(gossipers, gossipers[a])
    {
      var a :| a in pending;
      pending := pending - {a};
      var simulator := gossipers[a];
      var ok := NodeHasConverged(gossipers, simulator);
      if !ok {
        return false;
      }
    }
    return true;
  }

  // ---------------------------------------------------------------------
  // Properties of the verdict
  // ---------------------------------------------------------------------

  /** A participant that knows an unregistered address means no convergence. */
  lemma UnregisteredAddressDiverges(gossipers: Registry, a: InetAddr, p: InetAddr)
    requires SelfViewsPresent(gossipers)
    requires a in gossipers && p in gossipers[a].endpointStateMap && p !in gossipers
    ensures !Converged(gossipers)
  {
    assert p in gossipers[a].endpointStateMap.Keys - gossipers.Keys;
  }

  /** A participant that does not yet know a registered address means no
      convergence. */
  lemma UnknownPeerDiverges(gossipers: Registry, a: InetAddr, p: InetAddr)
    requires SelfViewsPresent(gossipers)
    requires a in gossipers && p in gossipers && p !in gossipers[a].endpointStateMap
    ensures !Converged(gossipers)
  {
    assert p in gossipers.Keys - gossipers[a].endpointStateMap.Keys;
  }

  /** A view of another participant with the wrong generation means no
      convergence. */
  lemma GenerationMismatchDiverges(gossipers: Registry, a: InetAddr, p: InetAddr)
    requires SelfViewsPresent(gossipers)
    requires a in gossipers && p in gossipers && p != gossipers[a].broadcastAddr
    requires p in gossipers[a].endpointStateMap
    requires gossipers[a].endpointStateMap[p].heartBeat.generation != OwnView(gossipers, p).heartBeat.generation
    ensures !Converged(gossipers)
  {
    assert !ViewAgrees(gossipers[a].endpointStateMap[p], OwnView(gossipers, p));
  }

  /** The registry in which participant `a` records heartbeat version `v` for
      address `p`, everything else as before. */
  function WithHeartBeatVersion(gossipers: Registry, a: InetAddr, p: InetAddr, v: int): (r: Registry)
    requires a in gossipers && p in gossipers[a].endpointStateMap
    ensures r.Keys == gossipers.Keys
    ensures forall b :: b in r ==>
      && r[b].broadcastAddr == gossipers[b].broadcastAddr
      && r[b].endpointStateMap.Keys == gossipers[b].endpointStateMap.Keys
  {
    var g := gossipers[a];
    var e := g.endpointStateMap[p];
    var e' := e.(heartBeat := e.heartBeat.(version := v));
    gossipers[a := g.(endpointStateMap := g.endpointStateMap[p := e'])]
  }

  /** Heartbeat versions are never compared: changing any recorded heartbeat
      version, a participant's own included, leaves the verdict unchanged. */
  lemma HeartBeatVersionIgnored(gossipers: Registry, a: InetAddr, p: InetAddr, v: int)
    requires SelfViewsPresent(gossipers)
    requires a in gossipers && p in gossipers[a].endpointStateMap
    ensures SelfViewsPresent(WithHeartBeatVersion(gossipers, a, p, v))
    ensures Converged(WithHeartBeatVersion(gossipers, a, p, v)) == Converged(gossipers)
  {
    var r := WithHeartBeatVersion(gossipers, a, p, v);
    assert SelfViewsPresent(r);
    forall b, q | b in gossipers && q in gossipers[b].endpointStateMap
      ensures r[b].endpointStateMap[q].heartBeat.generation == gossipers[b].endpointStateMap[q].heartBeat.generation
      ensures r[b].endpointStateMap[q].appStates == gossipers[b].endpointStateMap[q].appStates
    {
    }
    forall b | b in gossipers
      ensures NodeConverged(r, r[b]) == NodeConverged(gossipers, gossipers[b])
    {
      forall q | q in gossipers[b].endpointStateMap && q != gossipers[b].broadcastAddr && q in gossipers
        ensures ViewAgrees(r[b].endpointStateMap[q], OwnView(r, q))
             == ViewAgrees(gossipers[b].endpointStateMap[q], OwnView(gossipers, q))
      {
      }
    }
  }

  /** Agreement of application states is an equivalence. */
  lemma AppStatesAgreeEquivalence(x: AppStates, y: AppStates, z: AppStates)
    ensures AppStatesAgree(x, x)
    ensures AppStatesAgree(x, y) ==> AppStatesAgree(y, x)
    ensures AppStatesAgree(x, y) && AppStatesAgree(y, z) ==> AppStatesAgree(x, z)
  {
  }

  /** On a converged registry any two participants' views agree pairwise: `a`
      sees `b` as `b` sees itself and vice versa, and whenever both record a
      third participant `p`, their two views of `p` agree with each other. */
  lemma ConvergedViewsConsistent(gossipers: Registry, a: InetAddr, b: InetAddr, p: InetAddr)
    requires SelfViewsPresent(gossipers) && KeysMatchAddrs(gossipers)
    requires Converged(gossipers)
    requires a in gossipers && b in gossipers && p in gossipers
    ensures a != b ==> ViewAgrees(gossipers[a].endpointStateMap[b], OwnView(gossipers, b))
    ensures a != b ==> ViewAgrees(gossipers[b].endpointStateMap[a], OwnView(gossipers, a))
    ensures ViewAgrees(gossipers[a].endpointStateMap[p], gossipers[b].endpointStateMap[p])
  {
    assert NodeConverged(gossipers, gossipers[a]) && NodeConverged(gossipers, gossipers[b]);
    var own := OwnView(gossipers, p);
    var va := gossipers[a].endpointStateMap[p];
    var vb := gossipers[b].endpointStateMap[p];
    assert ViewAgrees(va, own) by {
      if p != a { assert p != gossipers[a].broadcastAddr; } else { AppStatesAgreeEquivalence(va.appStates, va.appStates, va.appStates); }
    }
    assert ViewAgrees(vb, own) by {
      if p != b { assert p != gossipers[b].broadcastAddr; } else { AppStatesAgreeEquivalence(vb.appStates, vb.appStates, vb.appStates); }
    }
    AppStatesAgreeEquivalence(vb.appStates, own.appStates, va.appStates);
    AppStatesAgreeEquivalence(va.appStates, own.appStates, vb.appStates);
  }
}
